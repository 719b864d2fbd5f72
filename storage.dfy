/** The data-access layer: `DatabaseStorage` over an in-memory copy of the three tables.
    Inserts and updates change the tables in place; every read is an equality filter, a
    newest-first ordering and, for messages, the nesting of each message's own replies. */
module Storage {
  import opened Wrappers
  import opened Schema
  import opened Ordering

  /** The constraint violations the store reports instead of writing. */
  datatype StoreError = ForeignKeyViolation | UniqueViolation

  /** The `where` conditions the message queries use. */
  datatype Where = VisibilityIs(isPublic: bool) | CategoryIs(category: string) | RecipientIs(recipient: string)

  /** Column equality as the database evaluates it: a null column equals nothing. */
  predicate Matches(m: Message, w: Where)
    ensures Matches(m, w) && w.VisibilityIs? ==> m.isPublic.Some?
    ensures Matches(m, w) && w.RecipientIs? ==> m.recipient.Some?
    ensures m.isPublic.Some? && w.VisibilityIs? ==> (Matches(m, w) <==> m.isPublic.value == w.isPublic)
  {
    match w
    case VisibilityIs(b) => m.isPublic == Some(b)
    case CategoryIs(c) => m.category == c
    case RecipientIs(r) => m.recipient == Some(r)
  }

  /** The rows of `ms` that satisfy `w`, each as often as it occurs. */
  function Select(ms: seq<Message>, w: Where): (r: seq<Message>)
    ensures forall m :: multiset(r)[m] == if Matches(m, w) then multiset(ms)[m] else 0
  {
    if ms == [] then
      []
    else
      assert ms == [ms[0]] + ms[1..];
      (if Matches(ms[0], w) then [ms[0]] else []) + Select(ms[1..], w)
  }

  /** The replies whose `messageId` is `messageId`, each as often as it occurs. */
  function RepliesTo(rs: seq<Reply>, messageId: int): (r: seq<Reply>)
    ensures forall x :: multiset(r)[x] == if x.messageId == messageId then multiset(rs)[x] else 0
  {
    if rs == [] then
      []
    else
      assert rs == [rs[0]] + rs[1..];
      (if rs[0].messageId == messageId then [rs[0]] else []) + RepliesTo(rs[1..], messageId)
  }

  /** `r` lists exactly the replies of `rs` to message `messageId`, newest first. */
  ghost predicate ListsRepliesOf(r: seq<Reply>, rs: seq<Reply>, messageId: int)
  {
    && (forall x :: multiset(r)[x] == if x.messageId == messageId then multiset(rs)[x] else 0)
    && NewestFirst(r, ReplyTime)
  }

  /** `ws` lists exactly the messages of `ms` satisfying `w`, newest first, each with its own replies. */
  ghost predicate ListsMessages(ws: seq<MessageWithReplies>, ms: seq<Message>, rs: seq<Reply>, w: Where)
  {
    && (forall m :: multiset(Rows(ws))[m] == if Matches(m, w) then multiset(ms)[m] else 0)
    && NewestFirst(Rows(ws), MessageTime)
    && (forall i :: 0 <= i < |ws| ==> ListsRepliesOf(ws[i].replies, rs, ws[i].message.id))
  }

  /** The replies to one message, newest first. */
  function NewestRepliesTo(rs: seq<Reply>, messageId: int): (r: seq<Reply>)
    ensures ListsRepliesOf(r, rs, messageId)
  {
    SortNewest(RepliesTo(rs, messageId), ReplyTime)
  }

  /** The messages satisfying `w`, newest first, each carrying its own replies newest first. */
  function MessagesWhere(ms: seq<Message>, rs: seq<Reply>, w: Where): (ws: seq<MessageWithReplies>)
    ensures ListsMessages(ws, ms, rs, w)
  {
    var sorted := SortNewest(Select(ms, w), MessageTime);
    var ws := seq(|sorted|, i requires 0 <= i < |sorted| =>
                MessageWithReplies(sorted[i], NewestRepliesTo(rs, sorted[i].id)));
    assert Rows(ws) == sorted;
    ws
  }

  /** A message is listed exactly when it is stored and satisfies the condition. */
  lemma ListedIff(ws: seq<MessageWithReplies>, ms: seq<Message>, rs: seq<Reply>, w: Where)
    requires ListsMessages(ws, ms, rs, w)
    ensures forall m :: m in Rows(ws) <==> m in ms && Matches(m, w)
  {
    forall m
      ensures m in Rows(ws) <==> m in ms && Matches(m, w)
    {
      assert m in Rows(ws) <==> multiset(Rows(ws))[m] > 0;
      assert m in ms <==> multiset(ms)[m] > 0;
    }
  }

  /** The first stored message with this id, if any. */
  function FindMessage(ms: seq<Message>, id: int): (r: Option<Message>)
    ensures r.None? <==> id !in MessageIds(ms)
    ensures r.Some? ==> r.value in ms && r.value.id == id
  {
    if ms == [] then None
    else if ms[0].id == id then Some(ms[0])
    else FindMessage(ms[1..], id)
  }

  /** The table after setting the visibility flag on every row with this id. */
  function WithVisibility(ms: seq<Message>, id: int, isPublic: bool): (r: seq<Message>)
    ensures |r| == |ms|
    ensures forall i :: 0 <= i < |ms| ==>
      r[i] == if ms[i].id == id then ms[i].(isPublic := Some(isPublic)) else ms[i]
  {
    seq(|ms|, i requires 0 <= i < |ms| =>
      if ms[i].id == id then ms[i].(isPublic := Some(isPublic)) else ms[i])
  }

  /** Applying the same visibility twice is the same as applying it once. */
  lemma VisibilityIdempotent(ms: seq<Message>, id: int, isPublic: bool)
    ensures WithVisibility(WithVisibility(ms, id, isPublic), id, isPublic) == WithVisibility(ms, id, isPublic)
  {
  }

  /** A visibility update keeps every key and every timestamp. */
  lemma VisibilityKeepsKeys(ms: seq<Message>, id: int, isPublic: bool)
    ensures MessageIds(WithVisibility(ms, id, isPublic)) == MessageIds(ms)
    ensures forall i :: 0 <= i < |ms| ==>
      WithVisibility(ms, id, isPublic)[i].id == ms[i].id &&
      WithVisibility(ms, id, isPublic)[i].createdAt == ms[i].createdAt
  {
    var r := WithVisibility(ms, id, isPublic);
    forall x | x in MessageIds(r) ensures x in MessageIds(ms) {
      var m :| m in r && m.id == x;
      var i :| 0 <= i < |r| && r[i] == m;
      assert ms[i].id == x;
    }
    forall x | x in MessageIds(ms) ensures x in MessageIds(r) {
      var m :| m in ms && m.id == x;
      var i :| 0 <= i < |ms| && ms[i] == m;
      assert r[i].id == x;
    }
  }

  /** A visibility update keeps the serial key and the timestamps. */
  lemma VisibilityKeepsConstraints(ms: seq<Message>, id: int, isPublic: bool, next: int, clock: nat)
    requires SerialKey(ms, MessageKey, next) && StampedBy(ms, MessageTime, clock)
    ensures SerialKey(WithVisibility(ms, id, isPublic), MessageKey, next)
    ensures StampedBy(WithVisibility(ms, id, isPublic), MessageTime, clock)
  {
    var after := WithVisibility(ms, id, isPublic);
    VisibilityKeepsKeys(ms, id, isPublic);
    assert SameKeys(ms, after, MessageKey);
    assert SameKeys(ms, after, MessageTime);
    SerialKeyKept(ms, after, MessageKey, next);
    StampedKept(ms, after, MessageTime, clock);
  }

  /** The row an update returns is the first row with that id, with the new flag. */
  lemma {:induction false} VisibilityUpdatedRow(ms: seq<Message>, id: int, isPublic: bool)
    ensures FindMessage(WithVisibility(ms, id, isPublic), id) ==
      match FindMessage(ms, id)
      case None => None
      case Some(m) => Some(m.(isPublic := Some(isPublic)))
  {
    if ms != [] {
      assert WithVisibility(ms, id, isPublic)[1..] == WithVisibility(ms[1..], id, isPublic);
      VisibilityUpdatedRow(ms[1..], id, isPublic);
    }
  }

  /** After the update every row with that id carries the new flag. */
  lemma VisibilitySet(ms: seq<Message>, id: int, isPublic: bool)
    ensures forall m :: m in WithVisibility(ms, id, isPublic) && m.id == id ==> m.isPublic == Some(isPublic)
  {
    var after := WithVisibility(ms, id, isPublic);
    forall m | m in after && m.id == id
      ensures m.isPublic == Some(isPublic)
    {
      var i :| 0 <= i < |after| && after[i] == m;
    }
  }

  /** The first stored admin with this id, if any. */
  function FindAdminById(rows: seq<Admin>, id: int): (r: Option<Admin>)
    ensures r.None? <==> forall a :: a in rows ==> a.id != id
    ensures r.Some? ==> r.value in rows && r.value.id == id
  {
    if rows == [] then None
    else if rows[0].id == id then Some(rows[0])
    else FindAdminById(rows[1..], id)
  }

  /** One stored admin with this username, if any; the query takes a single row in no stated order. */
  function FindAdminByUsername(rows: seq<Admin>, username: string): (r: Option<Admin>)
    ensures r.None? <==> forall a :: a in rows ==> a.username != username
    ensures r.Some? ==> r.value in rows && r.value.username == username
  {
    if rows == [] then None
    else if rows[0].username == username then Some(rows[0])
    else FindAdminByUsername(rows[1..], username)
  }

  /** The table after setting the active flag on every row with this id. */
  function WithStatus(rows: seq<Admin>, id: int, isActive: bool): (r: seq<Admin>)
    ensures |r| == |rows|
    ensures forall i :: 0 <= i < |rows| ==>
      r[i] == if rows[i].id == id then rows[i].(isActive := Some(isActive)) else rows[i]
  {
    seq(|rows|, i requires 0 <= i < |rows| =>
      if rows[i].id == id then rows[i].(isActive := Some(isActive)) else rows[i])
  }

  /** Applying the same status twice is the same as applying it once. */
  lemma StatusIdempotent(rows: seq<Admin>, id: int, isActive: bool)
    ensures WithStatus(WithStatus(rows, id, isActive), id, isActive) == WithStatus(rows, id, isActive)
  {
  }

  /** A status update keeps the serial key, both unique columns and the timestamps. */
  lemma StatusKeepsConstraints(rows: seq<Admin>, id: int, isActive: bool, next: int, clock: nat)
    requires SerialKey(rows, AdminKey, next) && StampedBy(rows, AdminTime, clock)
    requires UniqueKey(rows, Username) && UniqueKey(rows, Nickname)
    ensures SerialKey(WithStatus(rows, id, isActive), AdminKey, next)
    ensures UniqueKey(WithStatus(rows, id, isActive), Username)
    ensures UniqueKey(WithStatus(rows, id, isActive), Nickname)
    ensures StampedBy(WithStatus(rows, id, isActive), AdminTime, clock)
  {
    var after := WithStatus(rows, id, isActive);
    assert SameKeys(rows, after, AdminKey);
    assert SameKeys(rows, after, Username);
    assert SameKeys(rows, after, Nickname);
    assert SameKeys(rows, after, AdminTime);
    SerialKeyKept(rows, after, AdminKey, next);
    UniqueKeyKept(rows, after, Username);
    UniqueKeyKept(rows, after, Nickname);
    StampedKept(rows, after, AdminTime, clock);
  }

  /** The row a status update returns is the first row with that id, with the new flag. */
  lemma {:induction false} StatusUpdatedRow(rows: seq<Admin>, id: int, isActive: bool)
    ensures FindAdminById(WithStatus(rows, id, isActive), id) ==
      match FindAdminById(rows, id)
      case None => None
      case Some(a) => Some(a.(isActive := Some(isActive)))
  {
    if rows != [] {
      assert WithStatus(rows, id, isActive)[1..] == WithStatus(rows[1..], id, isActive);
      StatusUpdatedRow(rows[1..], id, isActive);
    }
  }

  /** An admin counts as active only when the flag is true; null and false both do not. */
  predicate IsActive(a: Admin)
  {
    a.isActive == Some(true)
  }

  /** The nicknames of the active admins, in table order. */
  function ActiveNicknames(rows: seq<Admin>): (ns: seq<string>)
    ensures |ns| <= |rows|
    ensures forall n :: n in ns <==> exists a :: a in rows && IsActive(a) && a.nickname == n
    ensures ns == [] <==> forall a :: a in rows ==> !IsActive(a)
  {
    if rows == [] then
      []
    else
      assert forall a :: a in rows <==> a == rows[0] || a in rows[1..];
      (if IsActive(rows[0]) then [rows[0].nickname] else []) + ActiveNicknames(rows[1..])
  }

  /** Distinct nicknames among the admins give distinct recipients. */
  lemma {:induction false} ActiveNicknamesDistinct(rows: seq<Admin>)
    requires UniqueKey(rows, Nickname)
    ensures forall i, j :: 0 <= i < j < |ActiveNicknames(rows)| ==> ActiveNicknames(rows)[i] != ActiveNicknames(rows)[j]
  {
    if rows != [] {
      var tail := rows[1..];
      assert UniqueKey(tail, Nickname) by {
        forall i, j | 0 <= i < j < |tail| ensures Nickname(tail[i]) != Nickname(tail[j]) {
          assert tail[i] == rows[i + 1] && tail[j] == rows[j + 1];
        }
      }
      ActiveNicknamesDistinct(tail);
      if IsActive(rows[0]) {
        var ns := ActiveNicknames(rows);
        assert ns == [rows[0].nickname] + ActiveNicknames(tail);
        forall k | 0 <= k < |ActiveNicknames(tail)| ensures ActiveNicknames(tail)[k] != rows[0].nickname {
          var n := ActiveNicknames(tail)[k];
          assert n in ActiveNicknames(tail);
          var a :| a in tail && IsActive(a) && a.nickname == n;
          var j :| 0 <= j < |tail| && tail[j] == a;
          assert rows[j + 1] == a;
        }
      }
    }
  }

  /** The recipient directory used when none of the admins is active. */
  const DefaultRecipients: seq<string> := ["Admin", "Moderator", "Support", "Community Manager"]

  class DatabaseStorage {
    var messages: seq<Message>
    var replies: seq<Reply>
    var admins: seq<Admin>
    /** The next value of each table's `serial` id. */
    var nextMessageId: int
    var nextReplyId: int
    var nextAdminId: int
    /** The latest timestamp handed out. */
    var clock: nat

    /** The schema's constraints: serial primary keys, the reply -> message foreign key,
        unique usernames and nicknames; and no row is newer than the clock. */
    ghost predicate Valid()
      reads this
    {
      && SerialKey(messages, MessageKey, nextMessageId)
      && SerialKey(replies, ReplyKey, nextReplyId)
      && SerialKey(admins, AdminKey, nextAdminId)
      && RepliesReferToMessages(replies, messages)
      && UniqueKey(admins, Username)
      && UniqueKey(admins, Nickname)
      && StampedBy(messages, MessageTime, clock)
      && StampedBy(replies, ReplyTime, clock)
      && StampedBy(admins, AdminTime, clock)
    }

    constructor ()
      ensures Valid()
      ensures messages == [] && replies == [] && admins == []
      ensures nextMessageId == 1 && nextReplyId == 1 && nextAdminId == 1 && clock == 0
    {
      messages, replies, admins := [], [], [];
      nextMessageId, nextReplyId, nextAdminId := 1, 1, 1;
      clock := 0;
    }

    // ---- Messages ---------------------------------------------------------

    /** Inserts one message with a fresh id and the current time, and returns it. */
    method CreateMessage(input: InsertMessage, now: nat) returns (m: Message)
      requires Valid() && clock <= now
      modifies this
      ensures Valid()
      ensures m == NewMessage(input, old(nextMessageId), now)
      ensures m.id !in MessageIds(old(messages))
      ensures forall o :: o in old(messages) ==> o.createdAt <= m.createdAt
      ensures messages == old(messages) + [m]
      ensures replies == old(replies) && admins == old(admins)
      ensures nextMessageId == old(nextMessageId) + 1
      ensures nextReplyId == old(nextReplyId) && nextAdminId == old(nextAdminId) && clock == now
      ensures input.isPublic.Omitted? ==> m in Rows(GetPublicMessages())
    {
      m := NewMessage(input, nextMessageId, now);
      SerialKeyAppend(messages, MessageKey, nextMessageId, m);
      StampedAppend(messages, MessageTime, clock, m, now);
      MessageIdsAppend(messages, m);
      messages := messages + [m];
      nextMessageId := nextMessageId + 1;
      clock := now;
    }

    /** The messages whose `isPublic` is true (null and false are excluded). */
    function GetPublicMessages(): (r: seq<MessageWithReplies>)
      reads this
      ensures ListsMessages(r, messages, replies, VisibilityIs(true))
      ensures forall m :: m in Rows(r) <==> m in messages && m.isPublic == Some(true)
    {
      var r := MessagesWhere(messages, replies, VisibilityIs(true));
      ListedIff(r, messages, replies, VisibilityIs(true));
      r
    }

    /** The messages whose `isPublic` is false (null and true are excluded). */
    function GetPrivateMessages(): (r: seq<MessageWithReplies>)
      reads this
      ensures ListsMessages(r, messages, replies, VisibilityIs(false))
      ensures forall m :: m in Rows(r) <==> m in messages && m.isPublic == Some(false)
    {
      var r := MessagesWhere(messages, replies, VisibilityIs(false));
      ListedIff(r, messages, replies, VisibilityIs(false));
      r
    }

    /** The messages whose category is exactly `category`. */
    function GetMessagesByCategory(category: string): (r: seq<MessageWithReplies>)
      reads this
      ensures ListsMessages(r, messages, replies, CategoryIs(category))
      ensures forall m :: m in Rows(r) <==> m in messages && m.category == category
    {
      var r := MessagesWhere(messages, replies, CategoryIs(category));
      ListedIff(r, messages, replies, CategoryIs(category));
      r
    }

    /** The messages whose recipient is exactly `recipient` (a null recipient matches nothing). */
    function GetMessagesByRecipient(recipient: string): (r: seq<MessageWithReplies>)
      reads this
      ensures ListsMessages(r, messages, replies, RecipientIs(recipient))
      ensures forall m :: m in Rows(r) <==> m in messages && m.recipient == Some(recipient)
    {
      var r := MessagesWhere(messages, replies, RecipientIs(recipient));
      ListedIff(r, messages, replies, RecipientIs(recipient));
      r
    }

    /** Sets `isPublic` on the message with this id and returns it, or returns nothing when
        there is none; no other column and no other row changes. */
    method UpdateMessageVisibility(messageId: int, isPublic: bool) returns (r: Option<Message>)
      requires Valid()
      modifies this
      ensures Valid()
      ensures messages == WithVisibility(old(messages), messageId, isPublic)
      ensures replies == old(replies) && admins == old(admins)
      ensures nextMessageId == old(nextMessageId) && nextReplyId == old(nextReplyId)
      ensures nextAdminId == old(nextAdminId) && clock == old(clock)
      ensures r.None? <==> messageId !in MessageIds(old(messages))
      ensures r.Some? ==> r.value.id == messageId && r.value.isPublic == Some(isPublic) && r.value in messages
      ensures r.Some? ==> r.value == old(FindMessage(messages, messageId)).value.(isPublic := Some(isPublic))
      ensures isPublic ==> forall m :: m in Rows(GetPrivateMessages()) ==> m.id != messageId
      ensures isPublic ==> forall m :: m in messages && m.id == messageId ==> m in Rows(GetPublicMessages())
      ensures !isPublic ==> forall m :: m in Rows(GetPublicMessages()) ==> m.id != messageId
    {
      VisibilityKeepsConstraints(messages, messageId, isPublic, nextMessageId, clock);
      VisibilityKeepsKeys(messages, messageId, isPublic);
      VisibilityUpdatedRow(messages, messageId, isPublic);
      VisibilitySet(messages, messageId, isPublic);
      messages := WithVisibility(messages, messageId, isPublic);
      r := FindMessage(messages, messageId);
    }

    // ---- Replies ----------------------------------------------------------

    /** Inserts one reply to an existing message; a reply to a missing message is rejected
        by the foreign key and nothing changes. */
    method CreateReply(input: InsertReply, now: nat) returns (r: Result<Reply, StoreError>)
      requires Valid() && clock <= now
      modifies this
      ensures Valid()
      ensures r.Err? <==> input.messageId !in MessageIds(messages)
      ensures r.Err? ==> r.error == ForeignKeyViolation
      ensures r.Err? ==> replies == old(replies) && nextReplyId == old(nextReplyId) && clock == old(clock)
      ensures r.Ok? ==> r.value == NewReply(input, old(nextReplyId), now)
      ensures r.Ok? ==> forall o :: o in old(replies) ==> o.id != r.value.id
      ensures r.Ok? ==> replies == old(replies) + [r.value]
      ensures r.Ok? ==> nextReplyId == old(nextReplyId) + 1 && clock == now
      ensures r.Ok? ==> r.value in GetRepliesByMessageId(input.messageId)
      ensures messages == old(messages) && admins == old(admins)
      ensures nextMessageId == old(nextMessageId) && nextAdminId == old(nextAdminId)
    {
      if input.messageId !in MessageIds(messages) {
        return Err(ForeignKeyViolation);
      }
      var reply := NewReply(input, nextReplyId, now);
      SerialKeyAppend(replies, ReplyKey, nextReplyId, reply);
      StampedAppend(replies, ReplyTime, clock, reply, now);
      replies := replies + [reply];
      nextReplyId := nextReplyId + 1;
      clock := now;
      r := Ok(reply);
    }

    /** The replies to message `messageId`, newest first. */
    function GetRepliesByMessageId(messageId: int): (r: seq<Reply>)
      reads this
      ensures ListsRepliesOf(r, replies, messageId)
      ensures forall x :: x in r <==> x in replies && x.messageId == messageId
    {
      var r := NewestRepliesTo(replies, messageId);
      assert forall x :: x in r <==> multiset(r)[x] > 0;
      assert forall x :: x in replies <==> multiset(replies)[x] > 0;
      r
    }

    // ---- Admins -----------------------------------------------------------

    /** Inserts one admin account; a username or nickname already taken is rejected by its
        unique constraint and nothing changes. */
    method CreateAdmin(input: InsertAdmin, now: nat) returns (r: Result<Admin, StoreError>)
      requires Valid() && clock <= now
      modifies this
      ensures Valid()
      ensures r.Err? <==> exists a :: a in old(admins) && (a.username == input.username || a.nickname == input.nickname)
      ensures r.Err? ==> r.error == UniqueViolation
      ensures r.Err? ==> admins == old(admins) && nextAdminId == old(nextAdminId) && clock == old(clock)
      ensures r.Ok? ==> r.value == NewAdmin(input, old(nextAdminId), now)
      ensures r.Ok? ==> forall o :: o in old(admins) ==> o.id != r.value.id
      ensures r.Ok? ==> admins == old(admins) + [r.value]
      ensures r.Ok? ==> nextAdminId == old(nextAdminId) + 1 && clock == now
      ensures messages == old(messages) && replies == old(replies)
      ensures nextMessageId == old(nextMessageId) && nextReplyId == old(nextReplyId)
    {
      if exists a :: a in admins && (a.username == input.username || a.nickname == input.nickname) {
        return Err(UniqueViolation);
      }
      var admin := NewAdmin(input, nextAdminId, now);
      SerialKeyAppend(admins, AdminKey, nextAdminId, admin);
      UniqueKeyAppend(admins, Username, admin);
      UniqueKeyAppend(admins, Nickname, admin);
      StampedAppend(admins, AdminTime, clock, admin, now);
      admins := admins + [admin];
      nextAdminId := nextAdminId + 1;
      clock := now;
      r := Ok(admin);
    }

    /** The admin with this username, if there is one. */
    function GetAdminByUsername(username: string): (r: Option<Admin>)
      reads this
      ensures r.None? <==> forall a :: a in admins ==> a.username != username
      ensures r.Some? ==> r.value in admins && r.value.username == username
    {
      FindAdminByUsername(admins, username)
    }

    /** Every admin, newest first. */
    function GetAllAdmins(): (r: seq<Admin>)
      reads this
      ensures NewestFirst(r, AdminTime)
      ensures multiset(r) == multiset(admins)
    {
      SortNewest(admins, AdminTime)
    }

    /** Sets `isActive` on the admin with this id and returns it, or returns nothing when
        there is none; no other column and no other row changes. */
    method UpdateAdminStatus(adminId: int, isActive: bool) returns (r: Option<Admin>)
      requires Valid()
      modifies this
      ensures Valid()
      ensures admins == WithStatus(old(admins), adminId, isActive)
      ensures messages == old(messages) && replies == old(replies)
      ensures nextMessageId == old(nextMessageId) && nextReplyId == old(nextReplyId)
      ensures nextAdminId == old(nextAdminId) && clock == old(clock)
      ensures r.None? <==> forall a :: a in old(admins) ==> a.id != adminId
      ensures r.Some? ==> r.value.id == adminId && r.value.isActive == Some(isActive) && r.value in admins
      ensures r.Some? ==> r.value == old(FindAdminById(admins, adminId)).value.(isActive := Some(isActive))
    {
      StatusKeepsConstraints(admins, adminId, isActive, nextAdminId, clock);
      StatusUpdatedRow(admins, adminId, isActive);
      admins := WithStatus(admins, adminId, isActive);
      r := FindAdminById(admins, adminId);
    }

    /** The nicknames of the active admins; the fixed default directory when there are none,
        so the list is never empty. */
    function GetRecipients(): (r: seq<string>)
      reads this
      ensures r != []
      ensures (forall a :: a in admins ==> !IsActive(a)) ==> r == DefaultRecipients
      ensures (exists a :: a in admins && IsActive(a)) ==>
        forall n :: n in r <==> exists a :: a in admins && IsActive(a) && a.nickname == n
    {
      var active := ActiveNicknames(admins);
      if |active| == 0 then DefaultRecipients else active
    }
  }

  /** Under the unique constraint, the admin found by username is the one with it. */
  lemma AdminByUsernameIsTheOne(s: DatabaseStorage, a: Admin)
    requires s.Valid() && a in s.admins
    ensures s.GetAdminByUsername(a.username) == Some(a)
  {
    var r := s.GetAdminByUsername(a.username).value;
    var i :| 0 <= i < |s.admins| && s.admins[i] == r;
    var j :| 0 <= j < |s.admins| && s.admins[j] == a;
    UniqueKeyAt(s.admins, Username, i, j);
  }

  /** Under the unique constraint, no recipient is listed twice. */
  lemma RecipientsDistinct(s: DatabaseStorage)
    requires s.Valid()
    ensures forall i, j :: 0 <= i < j < |s.GetRecipients()| ==> s.GetRecipients()[i] != s.GetRecipients()[j]
  {
    ActiveNicknamesDistinct(s.admins);
  }

  /** A message with a non-null flag is listed either as public or as private, never both;
      a message whose flag is null is in neither list. */
  lemma VisibilityPartition(pub: seq<MessageWithReplies>, priv: seq<MessageWithReplies>, ms: seq<Message>, rs: seq<Reply>)
    requires ListsMessages(pub, ms, rs, VisibilityIs(true))
    requires ListsMessages(priv, ms, rs, VisibilityIs(false))
    ensures forall m :: multiset(Rows(pub))[m] + multiset(Rows(priv))[m] == (if m.isPublic.Some? then multiset(ms)[m] else 0)
    ensures forall m :: !(m in Rows(pub) && m in Rows(priv))
  {
    forall m
      ensures multiset(Rows(pub))[m] + multiset(Rows(priv))[m] == (if m.isPublic.Some? then multiset(ms)[m] else 0)
    {
      assert multiset(Rows(pub))[m] == if Matches(m, VisibilityIs(true)) then multiset(ms)[m] else 0;
      assert multiset(Rows(priv))[m] == if Matches(m, VisibilityIs(false)) then multiset(ms)[m] else 0;
      match m.isPublic
      case None =>
      case Some(b) =>
        assert Matches(m, VisibilityIs(b)) && !Matches(m, VisibilityIs(!b));
    }
    ListedIff(pub, ms, rs, VisibilityIs(true));
    ListedIff(priv, ms, rs, VisibilityIs(false));
  }
}

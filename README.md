# Whispering Network record store, in Dafny

This project models the record store of the Whispering Network message board. Visitors post
messages, publicly or to a named recipient. Other visitors reply, and administrators promote
private messages to public.

The model has three parts:

- The three tables (`messages`, `replies`, `admins`): their rows, the insert shapes that leave
  `id` and `createdAt` to the store, the column defaults, and the key constraints
  (`schema.dfy`, module `Schema`).
- `DatabaseStorage`, the data-access layer, as a class over in-memory copies of the three tables
  (`storage.dfy`, module `Storage`). Inserts and updates are methods that change the tables in
  place. Each read is a function whose contract says exactly which rows it lists, in which order,
  and which replies each message carries. Newest-first ordering is one generic insertion sort
  (`ordering.dfy`, module `Ordering`).
- The admin dashboard's figures and its "Make Public" request (`admin_stats.dfy`, module
  `AdminDashboard`).

`wrappers.dfy` holds `Option` and `Result`.

Modelling choices:

- Each table has its own `serial` counter starting at 1, as a PostgreSQL `serial` column does.
- The creation time is a natural number. Insert methods take it as the parameter `now`. The
  store keeps the last stamp in `clock` and takes the wall clock to be monotone
  (`requires clock <= now`). So a new row is never older than the rows already stored.
- Nullable columns are `Option`s. `isPublic` and `isActive` are therefore three-valued.
- An insert may leave a defaulted nullable column out, set it to null, or give a value
  (`Provided`). Only a left-out column takes the default.
- The `where` filters are column equality as the database evaluates it: a null column equals
  nothing. The two visibility filters therefore skip a message whose `isPublic` is null, so the
  public and private lists together cover exactly the messages with a non-null flag
  (`VisibilityPartition`).
- An update returns the first row its `returning()` clause yields. That is `undefined` when no row
  has the id, and the model returns `None` in that case.
- A rejected insert (a reply to a missing message, a username or nickname already taken)
  returns `Err` and changes nothing.

## Model

| member | source | states |
|---|---|---|
| Schema.NewMessage | shared/schema.ts:6-15 | an inserted message keeps every column the input gave, gets the store's id and timestamp, and has `isPublic = true` when the input leaves it out (null when the input gives null) |
| Schema.NewReply | shared/schema.ts:17-23 | an inserted reply keeps its message id, content and nickname and gets the store's id and timestamp |
| Schema.NewAdmin | shared/schema.ts:26-34 | an inserted admin keeps username, password and nickname, has role "admin" and `isActive = true` when those are left out, and null `isActive` when given null |
| Schema.SerialKeyAppend | shared/schema.ts:7 | appending a row keyed with the next serial value keeps every key below the counter and distinct, and the new key is not held by any existing row |
| Schema.UniqueKeyAppend | shared/schema.ts:28-30 | appending a row whose key no existing row has keeps a unique column unique |
| Schema.UniqueKeyAt | shared/schema.ts:27-30 | two rows with the same unique key are the same row |
| Schema.SerialKeyKept | shared/schema.ts:7 | an in-place change that keeps every row's key keeps the serial key |
| Schema.UniqueKeyKept | shared/schema.ts:28-30 | an in-place change that keeps every row's key keeps a unique column unique |
| Schema.MessageIdsAppend | shared/schema.ts:19 | appending a message adds exactly its id to the ids replies may reference |
| Ordering.InsertNewest | server/storage.ts:40 | inserting a row into a newest-first list gives a newest-first list holding the old rows plus that row |
| Ordering.SortNewest | server/storage.ts:40 | the sorted list is newest first and is a permutation of its input |
| Storage.Select | server/storage.ts:39 | the filtered list holds each message exactly as often as the table does if it satisfies the condition, and never otherwise |
| Storage.RepliesTo | server/storage.ts:88 | the filtered list holds each reply exactly as often as the table does if it references the message, and never otherwise |
| Storage.NewestRepliesTo | server/storage.ts:84-90 | exactly the replies to the message, newest first |
| Storage.MessagesWhere | server/storage.ts:38-46 | exactly the matching messages, newest first, each carrying exactly its own replies newest first |
| Storage.ListedIff | server/storage.ts:38-46 | a message is listed if and only if it is stored and satisfies the condition |
| Storage.FindMessage | server/storage.ts:107-112 | returns nothing exactly when no message has the id, otherwise a stored message with that id |
| Storage.WithVisibility | server/storage.ts:107-111 | the update sets `isPublic` on the rows with that id and leaves every other row and column unchanged |
| Storage.VisibilityIdempotent | server/storage.ts:106-113 | repeating the same visibility update leaves the table as one update did |
| Storage.VisibilityKeepsKeys | server/storage.ts:107-111 | a visibility update keeps every id, every timestamp and the set of ids |
| Storage.VisibilityKeepsConstraints | server/storage.ts:106-113 | a visibility update keeps the serial key and the timestamp bound |
| Storage.VisibilityUpdatedRow | server/storage.ts:106-113 | the row returned after the update is the first row with that id, with the new flag, and nothing when there is none |
| Storage.VisibilitySet | server/storage.ts:109-110 | after the update every row with that id carries the new flag |
| Storage.FindAdminById | server/storage.ts:141-146 | returns nothing exactly when no admin has the id, otherwise a stored admin with that id |
| Storage.FindAdminByUsername | server/storage.ts:124-129 | returns nothing exactly when no admin has the username, otherwise a stored admin with that username |
| Storage.WithStatus | server/storage.ts:141-145 | the update sets `isActive` on the rows with that id and leaves every other row and column unchanged |
| Storage.StatusIdempotent | server/storage.ts:140-147 | repeating the same status update leaves the table as one update did |
| Storage.StatusKeepsConstraints | server/storage.ts:140-147 | a status update keeps the serial key, unique usernames and nicknames, and the timestamp bound |
| Storage.StatusUpdatedRow | server/storage.ts:140-147 | the row returned after the update is the first row with that id, with the new flag, and nothing when there is none |
| Storage.ActiveNicknames | server/storage.ts:151-154 | a nickname is listed if and only if some admin whose flag is true has it; the list is empty exactly when no admin is active |
| Storage.ActiveNicknamesDistinct | shared/schema.ts:30 | with unique nicknames, the active nicknames are pairwise distinct |
| Storage.DatabaseStorage.constructor | server/storage.ts:165 | a freshly created database: the three tables with no rows, every `serial` counter at 1, and every constraint holding; every method is specified over any state satisfying the constraints, not only this one |
| Storage.DatabaseStorage.CreateMessage | server/storage.ts:29-35 | appends exactly one message with a fresh id and the current time and returns it; it is the newest; replies and admins are unchanged; a message with `isPublic` left out is then listed as public |
| Storage.DatabaseStorage.GetPublicMessages | server/storage.ts:37-48 | exactly the messages whose `isPublic` is true (not null, not false), newest first, each with exactly its replies newest first |
| Storage.DatabaseStorage.GetPrivateMessages | server/storage.ts:50-61 | exactly the messages whose `isPublic` is false, with the same ordering and nesting |
| Storage.DatabaseStorage.GetMessagesByCategory | server/storage.ts:63-74 | exactly the messages whose category equals the argument, with the same ordering and nesting |
| Storage.DatabaseStorage.CreateReply | server/storage.ts:76-82 | appends exactly one reply with a fresh id when its message exists and returns it; it is then listed for that message; otherwise it is rejected as a foreign-key violation and nothing changes |
| Storage.DatabaseStorage.GetRepliesByMessageId | server/storage.ts:84-91 | exactly the replies whose `messageId` is the argument, newest first |
| Storage.DatabaseStorage.GetMessagesByRecipient | server/storage.ts:93-104 | exactly the messages whose recipient equals the argument (a null recipient never matches), with the same ordering and nesting |
| Storage.DatabaseStorage.UpdateMessageVisibility | server/storage.ts:106-113 | sets `isPublic` on the message with that id only and returns it, or returns nothing and changes nothing when there is none; making it public moves it out of the private list and into the public list |
| Storage.DatabaseStorage.CreateAdmin | server/storage.ts:115-121 | appends exactly one admin with a fresh id and returns it, unless the username or nickname is taken, in which case it is rejected and nothing changes |
| Storage.DatabaseStorage.GetAdminByUsername | server/storage.ts:123-130 | returns an admin with that username, or nothing exactly when there is none |
| Storage.DatabaseStorage.GetAllAdmins | server/storage.ts:132-138 | every admin, as a permutation of the table, newest first |
| Storage.DatabaseStorage.UpdateAdminStatus | server/storage.ts:140-147 | sets `isActive` on the admin with that id only and returns it, or returns nothing and changes nothing when there is none |
| Storage.DatabaseStorage.GetRecipients | server/storage.ts:149-162 | never empty; the four default names when no admin is active; otherwise a name is listed if and only if an active admin has it |
| Storage.AdminByUsernameIsTheOne | server/storage.ts:123-130 | with unique usernames, the admin found for a stored admin's username is that admin |
| Storage.RecipientsDistinct | server/storage.ts:149-162 | with unique nicknames, no recipient is listed twice |
| Storage.Matches | server/storage.ts:37-104 | a visibility or recipient condition never holds for a null column; on a non-null flag the visibility condition holds exactly when the flag equals the one asked for |
| Storage.VisibilityPartition | server/storage.ts:37-61 | for every message, its count in the public list plus its count in the private list is its count in the table when its flag is non-null, and 0 when it is null; no message is in both lists |
| AdminDashboard.TotalReplies | client/src/pages/admin.tsx:43 | "Total Replies" is 0 exactly when no public message has a reply |
| AdminDashboard.ReplierNicknames | client/src/pages/admin.tsx:44 | the flattened nickname list has one entry per reply, as many as "Total Replies" |
| AdminDashboard.ElementsAtMostLength | client/src/pages/admin.tsx:44 | a list has no more distinct elements than entries |
| AdminDashboard.ActiveUsers | client/src/pages/admin.tsx:44 | "Active Users" is never greater than "Total Replies", and is 0 exactly when "Total Replies" is |
| AdminDashboard.AddReply | client/src/pages/admin.tsx:43-44 | adding a reply to one public message changes only that message's reply list, putting the reply first |
| AdminDashboard.AddReplyNicknames | client/src/pages/admin.tsx:44 | adding a reply adds exactly one occurrence of its nickname to the flattened list |
| AdminDashboard.ElementsOfOneMore | client/src/pages/admin.tsx:44 | one more occurrence of a name adds that name to the distinct names and one entry to the list |
| AdminDashboard.AddReplyElements | client/src/pages/admin.tsx:43-44 | adding a reply adds its nickname to the distinct nicknames and one to "Total Replies" |
| AdminDashboard.ReplyByKnownNickname | client/src/pages/admin.tsx:43-44 | a reply whose nickname already occurs raises "Total Replies" by one and leaves "Active Users" unchanged |
| AdminDashboard.ReplyByNewNickname | client/src/pages/admin.tsx:43-44 | a reply with a new nickname raises both figures by one |
| AdminDashboard.ReplierNicknamesMembers | client/src/pages/admin.tsx:44 | a nickname is in the flattened list if and only if some listed message has a reply with it |
| AdminDashboard.ListedReplyIsStored | server/storage.ts:41-45 | a reply nested under a public message is a stored reply that references that stored public message |
| AdminDashboard.StoredReplyIsListed | server/storage.ts:41-45 | a stored reply to a stored public message is nested under that message in the public list |
| AdminDashboard.ActiveUsersAreRepliersToPublicMessages | client/src/pages/admin.tsx:19-44 | over the store's public list, a nickname counts towards "Active Users" if and only if it replied to a public message; replies to private messages never count |
| AdminDashboard.Stats | client/src/pages/admin.tsx:46-71 | four tiles in display order; "Private Messages" and "Public Messages" are the lengths of the fetched lists; "Active Users" is the number of distinct reply nicknames; "Total Replies" is the number of replies listed, one per nickname entry; "Active Users" is at most "Total Replies" |
| AdminDashboard.NicknamesOf | client/src/pages/admin.tsx:44 | one nickname per reply, in reply order |
| AdminDashboard.MakePublicRequest | client/src/pages/admin.tsx:23-26 | the request for a message carries that message's id and always asks for `isPublic = true` |
| AdminDashboard.MakePublicMovesMessage | client/src/pages/admin.tsx:136-142 | applying the "Make Public" request leaves no row with that id in the private list and lists every row with that id as public |

## Left out

- The database engine and the ORM: SQL, connections, transactions and the query builder. Their effect is modelled as three sequences, three serial counters and a clock.
- Store failures other than constraint violations, such as an unreachable database. The model has no error path for them.
- A PostgreSQL `serial` counter also advances on an insert that the database then rejects. The model leaves the counters unchanged on a rejected insert. Ids stay unique either way.
- Asynchronous execution and concurrent requests. Every operation is one atomic step.
- Wall-clock time. The timestamp is a parameter, and the wall clock is taken to be monotone.
- The order of rows with equal timestamps. The contracts state none, and neither does the source.
- The order of `GetAdminByUsername` and `GetRecipients` results. The queries state no order, and the model uses table order. The contracts promise no order for either.
- Storage.DatabaseStorage.GetAdminByUsername: does not say which row it returns when several share a username. The unique constraint rules that out, as `AdminByUsernameIsTheOne` shows.
- Storage.DatabaseStorage.CreateAdmin: reports one `UniqueViolation` without naming the constraint. The database names it, but which one is reported first is the engine's choice.
- `createdAt` is nullable in the table declaration. It is modelled as always present because inserts cannot supply it and the default fills it.
- The `IStorage` interface. `DatabaseStorage` is its only implementation.
- The HTTP handlers in `server/routes.ts`: request parsing and validation, status codes and logging. They only forward the message and reply calls. `server/routes.ts` registers no login or admin endpoint and strips no password field, so authentication and password handling are not modelled.
- The dashboard's rendering, notifications and query caching, including the cache refresh after "Make Public" succeeds.
- AdminDashboard.MakePublicMovesMessage: describes what `updateMessageVisibility(id, true)` does with the request's fields. `server/routes.ts` registers no handler for `PATCH /api/messages/:id`, so no route passes the button's request to `updateMessageVisibility`. The lemma does not describe what the server does with that request.
- Storage.DatabaseStorage.UpdateMessageVisibility, Storage.DatabaseStorage.CreateReply, Storage.DatabaseStorage.UpdateAdminStatus: ids are unbounded integers. The `id` and `message_id` columns are 32-bit PostgreSQL integers, and the database raises an error for an id outside that range. The model instead returns `None`, or `ForeignKeyViolation` for a reply. That error path is not modelled.
- Storage.DatabaseStorage.CreateMessage, Storage.DatabaseStorage.CreateReply, Storage.DatabaseStorage.CreateAdmin: the serial counters never run out. A PostgreSQL `serial` fails after 2^31-1, and that failure is not modelled.
- `client/src/App.tsx` (routing and the first-visit flag), `client/src/pages/landing.tsx` and `client/src/components/navigation.tsx` (presentation only).
- `client/src/lib/categories.ts`. It is a fixed list that the store does not enforce.

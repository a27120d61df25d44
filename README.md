# To-do list backend: store logic in Dafny

A model of the decision logic of a small task-manager backend (Express + MySQL). Users
register and log in, and a bearer-token middleware protects the other routes. Each user
manages a private list of tasks. On every notification fetch, reminder notifications are
generated for the user's pending tasks whose deadline has passed or is today. There is at
most one notification per task, and it is never reworded.

Each MySQL table is a class. Its rows are a `seq` field, and its auto-increment counter is
a `nextId` field. The store methods change these fields in place:

- `Tasks.TaskTable` models `tarefas`.
- `Notifications.NotificationTable` models `notificacoes`.
- `Users.UserTable` models `usuarios`.

Every table's `Valid()` says that ids strictly increase along the rows and stay below the
counter. For `usuarios` it also says that usernames are unique, which is what the unique
index on `user` enforces.

Notification generation is a loop. It is proved against a specification function:
`Notifications.Generate`, which is built from `Notifications.Step`. Idempotence, dedup,
append-only behaviour and coverage are lemmas about that function.

Modules:

| module | file | source |
|---|---|---|
| `Wrappers` | wrappers.dfy | the `Option` type (SQL NULL, absent field) |
| `Tasks` | tasks.dfy | `models/tarefa.ts` |
| `Notifications` | notifications.dfy | `models/notificacao.ts` |
| `AuthMiddleware` | auth_middleware.dfy | `middleware/auth.middleware.ts` |
| `Users` | users.dfy | `models/usuario.ts` |
| `NotificationsController` | notifications_controller.dfy | `controllers/notificacoes.controller.ts` |
| `AuthFlow` | auth_flow.dfy | register, login and middleware composed |

Conventions:

- Dates are integer day numbers.
- "Today" (`hoje`, midnight-truncated in the source) is a parameter.
- `agora` is the timestamp MySQL's `CURRENT_TIMESTAMP` default gives to `dataEnvio`. It is
  also a parameter, one value per generation run (see "## Left out").
- JavaScript falsiness is modelled on `Option`. For text fields, `None` and `Some("")` are
  falsy. For dates and statuses, `None` is falsy.
- Clocks, salts and secrets are parameters.
- bcrypt's `hash` and `compare` and JWT's `sign` and `verify` are function-typed parameters.
  Where a lemma needs bcrypt's guarantee `compare(p, hash(p, salt))`, it is a precondition
  (`Users.HashSound`). Where a lemma needs "verify accepts what sign produced", that is a
  precondition too.

Three facts about the code that the model keeps as they are:

- Nothing checks that a task title is non-empty. `create` stores whatever title it is
  given.
- Username uniqueness is enforced only by the database. The model treats the
  unique index as part of the table (`Users.Taken`). A duplicate gives `DuplicateEntry`,
  which is the `ER_DUP_ENTRY` that `controllers/auth.controller.ts:14` maps to 409.
- `update`'s UPDATE statement filters by `id` alone. Ownership is checked only by the
  SELECT before it. Because ids are unique, the model proves that only the caller's row
  changes (`Tasks.ReplaceByIdChangesOneRow`).

## Model

| member | source | states |
|---|---|---|
| `Tasks.NewRow` | to-do-list-backend/src/models/tarefa.ts:37 | the inserted row always has status `pendente`; its priority is never empty: the given one if truthy, else `media`; a truthy description is stored as given and a falsy one becomes NULL; the title, deadline, id and owner are the given ones |
| `Tasks.FindOwned` | to-do-list-backend/src/models/tarefa.ts:51-52 | finds a row iff a row with both that id and that owner exists, and what it finds is such a row |
| `Tasks.Merge` | to-do-list-backend/src/models/tarefa.ts:54-63 | the merged row keeps its `id` and `idUsuario`, so only the five SET columns can change; the rule for each of those columns is `Tasks.MergeFieldByField` |
| `Tasks.ReplaceByIdChangesOneRow` | to-do-list-backend/src/models/tarefa.ts:62-64 | `UPDATE ... WHERE id = ?` with unique increasing ids and a replacement keeping the id: every row keeps its id, the ids stay increasing, and at most one row differs from before |
| `Tasks.Reverse` | to-do-list-backend/src/models/tarefa.ts:45 | `ORDER BY id DESC` over the ascending table order: the same length, with position `i` holding the element at `n - 1 - i` |
| `Tasks.OwnedBy` | to-do-list-backend/src/models/tarefa.ts:45 | keeps exactly the rows of that owner |
| `Tasks.RemoveOwned` | to-do-list-backend/src/models/tarefa.ts:69 | keeps exactly the rows not matching both id and owner; the length drops iff some row matched |
| `Tasks.RemoveOwnedOrdered` | to-do-list-backend/src/models/tarefa.ts:69-70 | with unique increasing ids, delete keeps the order and removes at most one row (so `affectedRows` is 0 or 1) |
| `Tasks.RemoveOwnedUnchanged` | to-do-list-backend/src/models/tarefa.ts:69-70 | when no row matches both id and owner, delete leaves the rows exactly as they were |
| `Tasks.OwnedByOrdered` | to-do-list-backend/src/models/tarefa.ts:45 | filtering by owner keeps ids increasing |
| `Tasks.TaskTable.Create` | to-do-list-backend/src/models/tarefa.ts:31-42 | appends the defaulted row under the next id (an id no existing row has); returns that id, the input exactly as given (no defaults), `pendente` and the owner |
| `Tasks.TaskTable.FindByUser` | to-do-list-backend/src/models/tarefa.ts:44-48 | returns exactly the caller's rows, in strictly descending id order |
| `Tasks.TaskTable.Update` | to-do-list-backend/src/models/tarefa.ts:50-66 | returns true iff the caller owns a row with that id; if false nothing changes; if true that row becomes its merge with the patch and every other row is unchanged |
| `Tasks.TaskTable.Delete` | to-do-list-backend/src/models/tarefa.ts:68-71 | returns true iff the caller owned such a row; the remaining rows are exactly the others; the table shrinks by one exactly when true |
| `Tasks.MergeFieldByField` | to-do-list-backend/src/models/tarefa.ts:54-60 | field by field, in any mixed patch: a truthy title, description or priority, or a present deadline or status, replaces the stored value; a falsy or absent one keeps it |
| `Tasks.MergeStatusOnly` | to-do-list-backend/src/models/tarefa.ts:54-60 | a patch carrying only a status (the status toggle) changes the status and nothing else |
| `Tasks.MergeFalsyPatchIsIdentity` | to-do-list-backend/src/models/tarefa.ts:54-60 | a patch with no truthy field changes nothing: an empty string is the same as an absent field |
| `Tasks.MergeNeverClears` | to-do-list-backend/src/models/tarefa.ts:54-60 | a stored description, deadline, title or priority can never be cleared by an update |
| `Tasks.MergeIdempotent` | to-do-list-backend/src/models/tarefa.ts:54-60 | applying the same patch twice equals applying it once |
| `Tasks.OtherUserCannotTouch` | to-do-list-backend/src/models/tarefa.ts:44-71 | another user's update and delete of a task both return false and leave the table unchanged; that user's listing shows only their own rows |
| `Notifications.PendingWithDeadline` | to-do-list-backend/src/models/notificacao.ts:34-37 | the task query yields the projection of exactly the caller's pending tasks with a deadline |
| `Notifications.MessageFor` | to-do-list-backend/src/models/notificacao.ts:39-52 | the message is non-empty iff the deadline is today or earlier; it is the "está atrasada!" wording iff the deadline is past, and the "vence hoje!" wording iff the deadline is today |
| `Notifications.HasTaskGrows` | to-do-list-backend/src/models/notificacao.ts:53-54 | once a task has a notification, the existence check stays true however many rows are appended after it |
| `Notifications.Step` | to-do-list-backend/src/models/notificacao.ts:42-60 | one iteration changes the state iff the deadline is today or earlier and the task has no notification yet; the change is exactly one appended row (next id, caller, task, its message, the run's timestamp, unread) and the counter advanced by one |
| `Notifications.Generate` | to-do-list-backend/src/models/notificacao.ts:42-61 | the whole loop: the old rows are a prefix of the new ones, the counter advances by the number of rows appended, and at most one row is appended per due task |
| `Notifications.GenerateOnlyAppends` | to-do-list-backend/src/models/notificacao.ts:52-60 | generation only appends, so existing rows are never modified; each appended row has the next id, the caller's id, a due task's id and that task's message, the run's timestamp, and `lida` false |
| `Notifications.GenerateCovers` | to-do-list-backend/src/models/notificacao.ts:42-60 | after a run, every due task with a deadline today or earlier has a notification |
| `Notifications.GenerateNoop` | to-do-list-backend/src/models/notificacao.ts:52-54 | when every such task already has a notification, generation changes nothing |
| `Notifications.GenerateIdempotent` | to-do-list-backend/src/models/notificacao.ts:53-54 | a second run with the same tasks, caller and day, whatever its timestamp, leaves the state exactly as the first run left it |
| `Notifications.GenerateKeepsAtMostOne` | to-do-list-backend/src/models/notificacao.ts:53-59 | if there was at most one notification per task before a run, there still is after it |
| `Notifications.GenerateValid` | to-do-list-backend/src/models/notificacao.ts:55-58 | generation keeps ids increasing and below the counter |
| `Notifications.GeneratedOnlyForOwnPendingTasks` | to-do-list-backend/src/models/notificacao.ts:34-58 | every inserted notification is for a pending task of the caller whose deadline is today or earlier, and it carries that task's message |
| `Notifications.NoNotificationForUnselected` | to-do-list-backend/src/models/notificacao.ts:34-37 | with unique task ids, a completed task, another user's task or a task without a deadline never gets a new notification |
| `Notifications.DueTasksCovered` | to-do-list-backend/src/models/notificacao.ts:34-59 | every pending task of the caller whose deadline has come has a notification after a run |
| `Notifications.DueTodayMessageNotReworded` | to-do-list-backend/src/models/notificacao.ts:46-54 | a "vence hoje" notification from yesterday stays as it is, even though today's wording would be "atrasada" |
| `Notifications.Unread` | to-do-list-backend/src/models/notificacao.ts:69 | keeps exactly the caller's rows with `lida` false |
| `Notifications.InsertByDate` | to-do-list-backend/src/models/notificacao.ts:69 | inserting into a newest-first list keeps it newest-first and adds exactly that element |
| `Notifications.SortNewestFirst` | to-do-list-backend/src/models/notificacao.ts:69 | `ORDER BY dataEnvio DESC`: the result is a newest-first permutation of the input |
| `Notifications.MarkRead` | to-do-list-backend/src/models/notificacao.ts:80 | `UPDATE ... SET lida = TRUE WHERE id = ? AND idUsuario = ?`: the length is kept, no row changes anything but its read flag, and a row is read afterwards iff it was read before or it is the caller's row with that id |
| `Notifications.MarkReadUnread` | to-do-list-backend/src/models/notificacao.ts:78-84 | after marking, the caller's unread list has lost exactly the notification with that id; every other user's unread list is unchanged |
| `Notifications.MarkReadNotOwnedIsNoop` | to-do-list-backend/src/models/notificacao.ts:80-83 | marking an id the caller does not own changes no row |
| `Notifications.MarkReadIdempotent` | to-do-list-backend/src/models/notificacao.ts:80 | marking twice equals marking once |
| `Notifications.MarkReadKeepsInvariants` | to-do-list-backend/src/models/notificacao.ts:80 | marking keeps the at-most-one-per-task property and the id invariant |
| `Notifications.NotificationTable.GenerateForUser` | to-do-list-backend/src/models/notificacao.ts:33-62 | the loop leaves the table equal to `Generate` over the task query's rows; old rows are a prefix of the new ones; dedup is preserved; the tasks table is unchanged |
| `Notifications.NotificationTable.FindUnreadByUser` | to-do-list-backend/src/models/notificacao.ts:67-73 | exactly the caller's unread notifications (as a multiset), newest first |
| `Notifications.NotificationTable.MarkAsRead` | to-do-list-backend/src/models/notificacao.ts:78-84 | returns true iff the caller owns a notification with that id; the new rows are those with `lida` set on that row only |
| `AuthMiddleware.Split` | to-do-list-backend/src/middleware/auth.middleware.ts:31 | `split(' ')` gives one more part than there are spaces; no part contains a space; joining the parts with spaces gives the header back |
| `AuthMiddleware.Authenticate` | to-do-list-backend/src/middleware/auth.middleware.ts:23-54 | 401 "Nenhum token fornecido" iff the header is absent or empty; 401 "Erro no formato do token" iff the header does not have exactly one space; every rejection is 401 or 403 |
| `AuthMiddleware.SplitOneSpace` | to-do-list-backend/src/middleware/auth.middleware.ts:31-38 | a scheme and a token without spaces, joined by one space, split back into exactly those two parts |
| `AuthMiddleware.OneSpaceDecomposes` | to-do-list-backend/src/middleware/auth.middleware.ts:31-38 | a header with exactly one space is a space-free scheme, a space and a space-free token |
| `AuthMiddleware.AuthenticateSingleSpace` | to-do-list-backend/src/middleware/auth.middleware.ts:38-53 | for such a header: a scheme other than `Bearer` gives 401 "Token mal formatado"; a token that fails verification gives 403; otherwise `next` runs once with the decoded user |
| `AuthMiddleware.MatchesBearer` | to-do-list-backend/src/middleware/auth.middleware.ts:40 | the scheme passes iff it has six characters, each the letter of "Bearer" in upper or lower case |
| `AuthMiddleware.DoubleSpaceIsFormatError` | to-do-list-backend/src/middleware/auth.middleware.ts:31-36 | a double space between scheme and token gives three parts and so "Erro no formato do token" |
| `AuthMiddleware.SchemeExamples` | to-do-list-backend/src/middleware/auth.middleware.ts:40-43 | `bearer`, `BEARER` and `Bearer` pass; `Basic` and `Bearer:` fail |
| `Users.FindByUsername` | to-do-list-backend/src/models/usuario.ts:41-46 | finds a row with that username, or none iff no row has it |
| `Users.UserTable.Register` | to-do-list-backend/src/models/usuario.ts:30-38 | a taken username gives `DuplicateEntry`, leaves the rows unchanged and uses up one counter value; otherwise appends a row whose `senha` is `hash(senha, salt)` under the next id |
| `Users.UserTable.Login` | to-do-list-backend/src/models/usuario.ts:40-64 | gives a token iff a row with that username exists and its hash matches the password; the token is then `sign({id, nome}, 3600 s)` of that row; the function only reads the table |
| `Users.LoginAfterRegister` | to-do-list-backend/src/models/usuario.ts:30-63 | right after a fresh registration, and given `compare(p, hash(p, salt))`, login with that password returns the token for the new id and name |
| `Users.LoginFailuresAlike` | to-do-list-backend/src/models/usuario.ts:44-53 | an unknown username and a wrong password both give the same `None` |
| `NotificationsController.ListResponse` | to-do-list-backend/src/controllers/notificacoes.controller.ts:20-24 | status 200 with the list iff the store calls returned; a thrown failure gives 500 with an error body |
| `NotificationsController.MarkResponse` | to-do-list-backend/src/controllers/notificacoes.controller.ts:33-42 | 200 iff the store returned true, 404 iff it returned false, 500 iff it threw; every non-200 answer has an error body |
| `NotificationsController.GetNotifications` | to-do-list-backend/src/controllers/notificacoes.controller.ts:11-25 | runs generation for the caller first, then answers 200 with the caller's unread list as it is after generation |
| `NotificationsController.MarkAsRead` | to-do-list-backend/src/controllers/notificacoes.controller.ts:29-43 | 200 iff the caller owns that notification, otherwise 404 "não encontrada"; the rows are marked as the store specifies |
| `NotificationsController.GetNotificationsTwice` | to-do-list-backend/src/controllers/notificacoes.controller.ts:15-18 | two consecutive fetches on the same day leave the table as one fetch does, and give the same answer |
| `NotificationsController.OverdueTaskFetchedTwice` | to-do-list-backend/src/controllers/notificacoes.controller.ts:15-20 | a task due yesterday, fetched twice: exactly one notification, with the overdue wording, listed by both answers |
| `AuthFlow.IssuedTokenAuthenticates` | to-do-list-backend/src/middleware/auth.middleware.ts:38-53 | a token that verification accepts and that has no space, sent as "Bearer <token>", reaches the handler as its payload |
| `AuthFlow.RegisterThenLogin` | to-do-list-backend/src/models/usuario.ts:30-63 | registering a fresh username and then logging in yields a token signed over the new id and name |
| `AuthFlow.RegisterTwice` | to-do-list-backend/src/models/usuario.ts:30-38 | a second registration of the same username is refused, and the first row stays as it was |

## Left out

- HTTP wiring is not modelled: the Express request and response objects, the route tables,
  the connection pool and the SQL text. The model keeps the response datatypes and the
  status codes.
- Rows of `tarefas` and `notificacoes` are values. `delete` issues a statement only against
  `tarefas`, never against `notificacoes`. The schema is not part of this model, so the
  model assumes no foreign key from `notificacoes.idTarefa` to `tarefas.id`. With a cascade,
  deleting a task would also delete its notifications. With a restrict, deleting a task
  that has a notification would fail and the controller would answer 500. Neither is
  modelled: here the task's notifications stay in place.
- The DB-side defaults for `dataEnvio` (the insert timestamp) and for `lida` (false) are
  written into the inserted row explicitly.
- `affectedRows` is assumed to count matched rows, not changed rows. So `markAsRead` on an
  already-read notification still returns true.
- The route parameter of `markAsRead` is converted with `Number(...)`. The model takes the
  id as a natural number. A non-numeric id (NaN, most likely a 500 from the query) and a
  fractional or negative id (no match, so 404) are not modelled. For these inputs,
  `NotificationsController.MarkAsRead` states nothing.
- A refused duplicate registration uses up an auto-increment value, which is how InnoDB
  normally behaves. `Users.UserTable.Register` models this, so later ids can have gaps.
  Other engines or lock modes that do not use up the value are not modelled.
- One `agora` is used for every row inserted in a generation run. In the database,
  `CURRENT_TIMESTAMP` is taken per INSERT statement, so rows from one run can carry
  different `dataEnvio` values. The order among rows whose `dataEnvio` values are equal in
  the model is then the model's fixed tie order. So
  `NotificationsController.GetNotificationsTwice`'s equal answers rely partly on that order.
  MySQL promises no order among ties.
- Timezones and `Date` arithmetic are not modelled. Deadlines are day numbers, and today is
  a supplied day number.
- Concurrency is not modelled. Two concurrent `generateForUser` runs race between the
  existence check and the insert. The model is one sequential store.
- A store failure in the middle of generation is not modelled. The in-memory tables never
  throw, so the 500 path is modelled only in the response functions, through
  `StoreCall.Threw`.
- bcrypt salting and cost (`genSalt(10)`) are not modelled: the salt is a parameter. Also
  left out are JWT signing, verification and the expiry clock.
- `process.env.JWT_SECRET` is folded into `sign` and `verify`.
- MySQL's default collation compares `user = ?` case-insensitively. The model compares
  usernames exactly, for both lookup and uniqueness.
- User `dataCadastro` (a DB default) is not modelled.
- Request bodies are typed, so extra JSON keys are not modelled. In `create`'s
  `{ id: result.insertId, ...data, ... }`, a body `id` key would replace the returned id. A
  `status` string other than `pendente`/`concluida` would be rejected by the database.
- The order of the generation query, which has no `ORDER BY`, is modelled as table order.
- `Notifications.NotificationTable.FindUnreadByUser`: MySQL leaves the order among equal
  `dataEnvio` values unspecified. The contract states only newest-first order and the
  multiset of rows. The insertion sort behind it fixes one order.
- `Users.UserTable.Register`: "never the plaintext" is stated as "the stored `senha` is
  `hash(senha, salt)`". Whether that differs from the password is bcrypt's business, and
  bcrypt is abstract here.
- `Tasks.TaskTable.Create`: JavaScript falsiness of the `prazo` text (an empty date string)
  is folded into `None`. The model has no representation of the raw text.
- The frontend, `tarefas.controller.ts` and `auth.controller.ts` are not part of this
  model. Their only logic is translating store results into status codes.

/**
 * The notification endpoints (`notificacoes.controller.ts`): the store calls they make, in
 * order, and the HTTP status they choose.
 */
module NotificationsController {
  import opened Wrappers
  import opened Tasks
  import opened Notifications

  datatype Body = Items(notifications: seq<Notification>) | Info(message: string) | Error(error: string)

  datatype Response = Response(status: nat, body: Body)

  /** What a store call gave back: its value, or the exception it threw. */
  datatype StoreCall<T> = Returned(value: T) | Threw

  const ListError: string := "Ocorreu um erro no servidor ao processar as notificações."
  const NotFoundError: string := "Notificação não encontrada ou não pertence ao usuário."
  const MarkedMessage: string := "Notificação marcada como lida."
  const ServerError: string := "Ocorreu um erro no servidor."

  /** The response of `getNotifications`: 200 with the list, or 500 with an error message. */
  function ListResponse(c: StoreCall<seq<Notification>>): (r: Response)
    ensures r.status == 200 <==> c.Returned?
    ensures c.Returned? ==> r.body == Items(c.value)
    ensures c.Threw? ==> r.status == 500 && r.body.Error?
  {
    match c
    case Returned(notifications) => Response(200, Items(notifications))
    case Threw => Response(500, Error(ListError))
  }

  /** The response of `markAsRead`: 200 when a row was marked, 404 when none, 500 on a failure. */
  function MarkResponse(c: StoreCall<bool>): (r: Response)
    ensures r.status == 200 <==> c == Returned(true)
    ensures r.status == 404 <==> c == Returned(false)
    ensures r.status == 500 <==> c.Threw?
    ensures r.status != 200 <==> r.body.Error?
  {
    match c
    case Returned(sucesso) =>
      if !sucesso then Response(404, Error(NotFoundError)) else Response(200, Info(MarkedMessage))
    case Threw => Response(500, Error(ServerError))
  }

  /** `getNotifications`: generation for the caller first, then the caller's unread list. */
  method GetNotifications(store: NotificationTable, tasks: TaskTable, idUsuario: nat, hoje: int, agora: int)
    returns (resp: Response)
    requires store.Valid()
    modifies store
    ensures store.Valid()
    ensures store.Snapshot() ==
      Generate(old(store.Snapshot()), PendingWithDeadline(tasks.rows, idUsuario), idUsuario, hoje, agora)
    ensures resp == ListResponse(Returned(store.FindUnreadByUser(idUsuario)))
  {
    store.GenerateForUser(tasks, idUsuario, hoje, agora);
    var notifications := store.FindUnreadByUser(idUsuario);
    resp := ListResponse(Returned(notifications));
  }

  /** `markAsRead`: 200 exactly when the caller owns a notification with that id. */
  method MarkAsRead(store: NotificationTable, idNotificacao: nat, idUsuario: nat) returns (resp: Response)
    requires store.Valid()
    modifies store
    ensures store.Valid()
    ensures store.rows == MarkRead(old(store.rows), idNotificacao, idUsuario)
    ensures store.nextId == old(store.nextId)
    ensures resp.status == 200 <==> exists n :: n in old(store.rows) && OwnedNotification(n, idNotificacao, idUsuario)
    ensures resp.status != 200 ==> resp == Response(404, Error(NotFoundError))
  {
    var sucesso := store.MarkAsRead(idNotificacao, idUsuario);
    resp := MarkResponse(Returned(sucesso));
  }

  /**
   * Two consecutive fetches with the same day and tasks: the second changes nothing and
   * answers with the same list as the first.
   */
  method GetNotificationsTwice(store: NotificationTable, tasks: TaskTable, idUsuario: nat, hoje: int, agora: int, agora2: int)
    returns (first: Response, second: Response)
    requires store.Valid()
    modifies store
    ensures store.Snapshot() ==
      Generate(old(store.Snapshot()), PendingWithDeadline(tasks.rows, idUsuario), idUsuario, hoje, agora)
    ensures first == second == ListResponse(Returned(store.FindUnreadByUser(idUsuario)))
  {
    first := GetNotifications(store, tasks, idUsuario, hoje, agora);
    ghost var afterFirst := store.Snapshot();
    second := GetNotifications(store, tasks, idUsuario, hoje, agora2);
    GenerateIdempotent(old(store.Snapshot()), PendingWithDeadline(tasks.rows, idUsuario), idUsuario, hoje, agora, agora2);
    assert store.Snapshot() == afterFirst;
  }

  /**
   * A user with one pending task due yesterday fetches twice: the table then holds exactly
   * one notification, with the overdue wording, and both answers list it.
   */
  method OverdueTaskFetchedTwice(hoje: int, agora: int, agora2: int)
    returns (first: Response, second: Response, stored: seq<Notification>)
    ensures stored == [Notification(1, 1, 1, OverdueMessage("Pagar conta"), agora, false)]
    ensures first == second == Response(200, Items(stored))
  {
    var tasks := new TaskTable();
    var created := tasks.Create(NewTask("Pagar conta", None, Some(hoje - 1), None), 1);
    var store := new NotificationTable();
    var due := DueTask(1, "Pagar conta", hoje - 1);
    assert PendingWithDeadline(tasks.rows, 1) == [due];
    assert !HasTask([], 1);
    assert [due][..0] == [];
    assert Generate(State([], 1), [due], 1, hoje, agora) == Step(State([], 1), due, 1, hoje, agora);
    first, second := GetNotificationsTwice(store, tasks, 1, hoje, agora, agora2);
    stored := store.rows;
    assert Unread(stored, 1) == stored;
    assert SortNewestFirst(stored) == stored;
  }
}

/**
 * The `notificacoes` table (model `Notificacao`): reminder generation from the caller's
 * pending tasks, the unread list, and read-marking.
 */
module Notifications {
  import opened Wrappers
  import opened Tasks

  /** A row of `notificacoes`; `dataEnvio` is the insertion timestamp. */
  datatype Notification = Notification(
    id: nat,
    idUsuario: nat,
    idTarefa: nat,
    mensagem: string,
    dataEnvio: int,
    lida: bool)

  /** A row of `SELECT id, titulo, prazo FROM tarefas ...`: a task whose deadline is set. */
  datatype DueTask = DueTask(id: nat, titulo: string, prazo: int)

  /** The table's contents together with its auto-increment counter. */
  datatype State = State(rows: seq<Notification>, nextId: nat)

  // ----- Which tasks generation looks at -----

  /** The filter of the task query: the caller's own, still pending, with a deadline. */
  predicate Selected(t: Task, idUsuario: nat) {
    t.idUsuario == idUsuario && t.status == Pendente && t.prazo.Some?
  }

  function Project(t: Task): DueTask
    requires t.prazo.Some?
  {
    DueTask(t.id, t.titulo, t.prazo.value)
  }

  /** The task query of `generateForUser`, in table order. */
  function PendingWithDeadline(tasks: seq<Task>, idUsuario: nat): (r: seq<DueTask>)
    ensures forall d :: d in r ==> exists t :: t in tasks && Selected(t, idUsuario) && d == Project(t)
    ensures forall t :: t in tasks && Selected(t, idUsuario) ==> Project(t) in r
  {
    if tasks == [] then []
    else
      var rest := PendingWithDeadline(tasks[1..], idUsuario);
      assert forall t :: t in tasks[1..] ==> t in tasks;
      if Selected(tasks[0], idUsuario) then [Project(tasks[0])] + rest else rest
  }

  // ----- The message of one task -----

  function OverdueMessage(titulo: string): string {
    "A sua tarefa \"" + titulo + "\" está atrasada!"
  }

  function DueTodayMessage(titulo: string): string {
    "A sua tarefa \"" + titulo + "\" vence hoje!"
  }

  /**
   * The message for a task given today's day number: overdue wording for a past deadline,
   * due-today wording for today's, and the empty (falsy) message for a future one.
   */
  function MessageFor(d: DueTask, hoje: int): (m: string)
    ensures m != "" <==> d.prazo <= hoje
    ensures m == OverdueMessage(d.titulo) <==> d.prazo < hoje
    ensures m == DueTodayMessage(d.titulo) <==> d.prazo == hoje
  {
    assert |OverdueMessage(d.titulo)| != |DueTodayMessage(d.titulo)|;
    if d.prazo < hoje then OverdueMessage(d.titulo)
    else if d.prazo == hoje then DueTodayMessage(d.titulo)
    else ""
  }

  // ----- Generation as a function of the table -----

  /** `SELECT id FROM notificacoes WHERE idTarefa = ?` is not empty. */
  predicate HasTask(rows: seq<Notification>, idTarefa: nat) {
    exists n :: n in rows && n.idTarefa == idTarefa
  }

  /** One iteration of the loop of `generateForUser`. */
  function Step(s: State, d: DueTask, idUsuario: nat, hoje: int, agora: int): (r: State)
    ensures r != s <==> d.prazo <= hoje && !HasTask(s.rows, d.id)
    ensures r != s ==> r == State(s.rows + [Notification(s.nextId, idUsuario, d.id, MessageFor(d, hoje), agora, false)], s.nextId + 1)
  {
    var mensagem := MessageFor(d, hoje);
    if mensagem != "" && !HasTask(s.rows, d.id) then
      State(s.rows + [Notification(s.nextId, idUsuario, d.id, mensagem, agora, false)], s.nextId + 1)
    else s
  }

  /** The effect of the loop of `generateForUser` over `due`, run in order. */
  function Generate(s: State, due: seq<DueTask>, idUsuario: nat, hoje: int, agora: int): (r: State)
    ensures s.rows <= r.rows
    ensures r.nextId - s.nextId == |r.rows| - |s.rows| <= |due|
    decreases |due|
  {
    if due == [] then s
    else Step(Generate(s, due[..|due| - 1], idUsuario, hoje, agora), due[|due| - 1], idUsuario, hoje, agora)
  }

  /** The dedup invariant: no task has more than one notification. */
  ghost predicate AtMostOnePerTask(rows: seq<Notification>) {
    forall i, j :: 0 <= i < j < |rows| ==> rows[i].idTarefa != rows[j].idTarefa
  }

  /** Auto-increment ids: strictly increasing in insertion order and below the counter. */
  ghost predicate ValidState(s: State) {
    && (forall i, j :: 0 <= i < j < |s.rows| ==> s.rows[i].id < s.rows[j].id)
    && (forall n :: n in s.rows ==> n.id < s.nextId)
  }

  /** Every task of `due` that has a message already has a notification in `rows`. */
  ghost predicate Covered(rows: seq<Notification>, due: seq<DueTask>, hoje: int) {
    forall d :: d in due && d.prazo <= hoje ==> HasTask(rows, d.id)
  }


  /** `n` is a notification one run of generation can insert for this caller, day and clock. */
  ghost predicate GeneratedFrom(n: Notification, due: seq<DueTask>, idUsuario: nat, hoje: int, agora: int) {
    && n.idUsuario == idUsuario
    && !n.lida
    && n.dataEnvio == agora
    && exists d :: d in due && d.id == n.idTarefa && d.prazo <= hoje && n.mensagem == MessageFor(d, hoje)
  }

  /** An existing notification survives appends: the existence check stays true as the table grows. */
  lemma HasTaskGrows(a: seq<Notification>, b: seq<Notification>, idTarefa: nat)
    requires a <= b && HasTask(a, idTarefa)
    ensures HasTask(b, idTarefa)
  {
    var n :| n in a && n.idTarefa == idTarefa;
    var k :| 0 <= k < |a| && a[k] == n;
    assert b[k] == n;
  }

  /**
   * Generation only appends: the existing rows (and so their messages and read flags) are
   * untouched, and each appended row carries the next counter value, the caller's id, a
   * due task's id and that task's message, the run's timestamp and an unread flag.
   */
  lemma {:induction false} GenerateOnlyAppends(s: State, due: seq<DueTask>, idUsuario: nat, hoje: int, agora: int)
    ensures var r := Generate(s, due, idUsuario, hoje, agora);
      && s.rows <= r.rows
      && r.nextId == s.nextId + |r.rows| - |s.rows|
      && forall k :: |s.rows| <= k < |r.rows| ==>
           r.rows[k].id == s.nextId + (k - |s.rows|) && GeneratedFrom(r.rows[k], due, idUsuario, hoje, agora)
  {
    if due != [] {
      var init := due[..|due| - 1];
      var last := due[|due| - 1];
      GenerateOnlyAppends(s, init, idUsuario, hoje, agora);
      var g := Generate(s, init, idUsuario, hoje, agora);
      var r := Step(g, last, idUsuario, hoje, agora);
      assert forall d :: d in init ==> d in due;
      forall k | |s.rows| <= k < |r.rows|
        ensures r.rows[k].id == s.nextId + (k - |s.rows|) && GeneratedFrom(r.rows[k], due, idUsuario, hoje, agora)
      {
        if k < |g.rows| {
          assert r.rows[k] == g.rows[k];
          assert GeneratedFrom(g.rows[k], init, idUsuario, hoje, agora);
        } else {
          assert r.rows[k].idTarefa == last.id;
        }
      }
    }
  }

  /** After a run, every due task with a message (deadline today or earlier) has a notification. */
  lemma {:induction false} GenerateCovers(s: State, due: seq<DueTask>, idUsuario: nat, hoje: int, agora: int)
    ensures Covered(Generate(s, due, idUsuario, hoje, agora).rows, due, hoje)
  {
    if due != [] {
      var init := due[..|due| - 1];
      var last := due[|due| - 1];
      GenerateCovers(s, init, idUsuario, hoje, agora);
      var g := Generate(s, init, idUsuario, hoje, agora);
      var r := Step(g, last, idUsuario, hoje, agora);
      assert g.rows <= r.rows;
      assert due == init + [last];
      forall d | d in due && d.prazo <= hoje ensures HasTask(r.rows, d.id) {
        if d in init {
          HasTaskGrows(g.rows, r.rows, d.id);
        } else if !HasTask(g.rows, last.id) {
          assert r.rows[|g.rows|].idTarefa == d.id;
        }
      }
    }
  }

  /** On a table where every due task already has a notification, generation changes nothing. */
  lemma {:induction false} GenerateNoop(s: State, due: seq<DueTask>, idUsuario: nat, hoje: int, agora: int)
    requires Covered(s.rows, due, hoje)
    ensures Generate(s, due, idUsuario, hoje, agora) == s
  {
    if due != [] {
      var init := due[..|due| - 1];
      assert forall d :: d in init ==> d in due;
      GenerateNoop(s, init, idUsuario, hoje, agora);
      assert due[|due| - 1] in due;
    }
  }

  /**
   * Idempotence: a second run with the same tasks, caller and day, whatever its clock,
   * leaves the table exactly as the first run left it.
   */
  lemma GenerateIdempotent(s: State, due: seq<DueTask>, idUsuario: nat, hoje: int, agora: int, agora2: int)
    ensures var once := Generate(s, due, idUsuario, hoje, agora);
      Generate(once, due, idUsuario, hoje, agora2) == once
  {
    GenerateCovers(s, due, idUsuario, hoje, agora);
    GenerateNoop(Generate(s, due, idUsuario, hoje, agora), due, idUsuario, hoje, agora2);
  }

  /** Dedup: a table with at most one notification per task still has at most one after a run. */
  lemma {:induction false} GenerateKeepsAtMostOne(s: State, due: seq<DueTask>, idUsuario: nat, hoje: int, agora: int)
    requires AtMostOnePerTask(s.rows)
    ensures AtMostOnePerTask(Generate(s, due, idUsuario, hoje, agora).rows)
  {
    if due != [] {
      var init := due[..|due| - 1];
      var last := due[|due| - 1];
      GenerateKeepsAtMostOne(s, init, idUsuario, hoje, agora);
      var g := Generate(s, init, idUsuario, hoje, agora);
      var r := Step(g, last, idUsuario, hoje, agora);
      if r != g {
        forall i | 0 <= i < |g.rows| ensures g.rows[i].idTarefa != last.id {
          assert g.rows[i] in g.rows;
        }
      }
    }
  }

  /** Generation keeps the auto-increment invariant of the table. */
  lemma {:induction false} GenerateValid(s: State, due: seq<DueTask>, idUsuario: nat, hoje: int, agora: int)
    requires ValidState(s)
    ensures ValidState(Generate(s, due, idUsuario, hoje, agora))
  {
    if due != [] {
      GenerateValid(s, due[..|due| - 1], idUsuario, hoje, agora);
    }
  }

  /** `n` is for one of the caller's pending tasks due by `hoje`, with that task's message. */
  ghost predicate ForSelectedTask(n: Notification, tasks: seq<Task>, idUsuario: nat, hoje: int) {
    exists t :: t in tasks && Selected(t, idUsuario) && t.id == n.idTarefa && t.prazo.value <= hoje
      && n.mensagem == MessageFor(Project(t), hoje)
  }

  /**
   * In terms of the tasks table: every notification a run inserts is for one of the caller's
   * pending tasks with a deadline today or earlier, and carries that task's message.
   */
  lemma GeneratedOnlyForOwnPendingTasks(s: State, tasks: seq<Task>, idUsuario: nat, hoje: int, agora: int)
    ensures var r := Generate(s, PendingWithDeadline(tasks, idUsuario), idUsuario, hoje, agora);
      forall k :: |s.rows| <= k < |r.rows| ==> ForSelectedTask(r.rows[k], tasks, idUsuario, hoje)
  {
    var due := PendingWithDeadline(tasks, idUsuario);
    var r := Generate(s, due, idUsuario, hoje, agora);
    GenerateOnlyAppends(s, due, idUsuario, hoje, agora);
    forall k | |s.rows| <= k < |r.rows| ensures ForSelectedTask(r.rows[k], tasks, idUsuario, hoje) {
      assert GeneratedFrom(r.rows[k], due, idUsuario, hoje, agora);
      var d :| d in due && d.id == r.rows[k].idTarefa && d.prazo <= hoje && r.rows[k].mensagem == MessageFor(d, hoje);
      var t :| t in tasks && Selected(t, idUsuario) && d == Project(t);
      assert t.id == r.rows[k].idTarefa;
    }
  }

  /**
   * Completed tasks and other users' tasks never get a new notification: with task ids
   * unique, no inserted row names a task the query does not select.
   */
  lemma NoNotificationForUnselected(s: State, tasks: seq<Task>, idUsuario: nat, hoje: int, agora: int, t: Task)
    requires Tasks.IdsIncreasing(tasks)
    requires t in tasks && !Selected(t, idUsuario)
    ensures var r := Generate(s, PendingWithDeadline(tasks, idUsuario), idUsuario, hoje, agora);
      forall k :: |s.rows| <= k < |r.rows| ==> r.rows[k].idTarefa != t.id
  {
    var r := Generate(s, PendingWithDeadline(tasks, idUsuario), idUsuario, hoje, agora);
    GeneratedOnlyForOwnPendingTasks(s, tasks, idUsuario, hoje, agora);
    forall k | |s.rows| <= k < |r.rows| ensures r.rows[k].idTarefa != t.id {
      assert ForSelectedTask(r.rows[k], tasks, idUsuario, hoje);
      var t' :| t' in tasks && Selected(t', idUsuario) && t'.id == r.rows[k].idTarefa;
      var i :| 0 <= i < |tasks| && tasks[i] == t;
      var j :| 0 <= j < |tasks| && tasks[j] == t';
      assert i != j;
    }
  }

  /** Every pending task of the caller whose deadline has come has a notification after a run. */
  lemma DueTasksCovered(s: State, tasks: seq<Task>, idUsuario: nat, hoje: int, agora: int, t: Task)
    requires t in tasks && Selected(t, idUsuario) && t.prazo.value <= hoje
    ensures HasTask(Generate(s, PendingWithDeadline(tasks, idUsuario), idUsuario, hoje, agora).rows, t.id)
  {
    GenerateCovers(s, PendingWithDeadline(tasks, idUsuario), idUsuario, hoje, agora);
    assert Project(t) in PendingWithDeadline(tasks, idUsuario);
  }

  /**
   * The staleness the dedup-by-existence design accepts: a "vence hoje" notification written
   * yesterday is not reworded once the task is overdue.
   */
  lemma DueTodayMessageNotReworded(n: Notification, d: DueTask, hoje: int, idUsuario: nat, agora: int)
    requires n.idTarefa == d.id && n.mensagem == DueTodayMessage(d.titulo) && d.prazo == hoje - 1
    ensures MessageFor(d, hoje) == OverdueMessage(d.titulo)
    ensures Generate(State([n], n.id + 1), [d], idUsuario, hoje, agora) == State([n], n.id + 1)
  {
    assert [n][0] == n;
    assert HasTask([n], d.id);
  }

  // ----- Listing unread notifications -----

  /** `WHERE idUsuario = ? AND lida = FALSE`, in table order. */
  function Unread(rows: seq<Notification>, idUsuario: nat): (r: seq<Notification>)
    ensures forall n :: n in r <==> n in rows && n.idUsuario == idUsuario && !n.lida
  {
    if rows == [] then []
    else
      var rest := Unread(rows[1..], idUsuario);
      assert forall n :: n in rows[1..] ==> n in rows;
      if rows[0].idUsuario == idUsuario && !rows[0].lida then [rows[0]] + rest else rest
  }

  ghost predicate NewestFirst(s: seq<Notification>) {
    forall i, j :: 0 <= i < j < |s| ==> s[i].dataEnvio >= s[j].dataEnvio
  }

  lemma NewestFirstTail(s: seq<Notification>)
    requires NewestFirst(s) && s != []
    ensures NewestFirst(s[1..])
    ensures forall x :: x in s[1..] ==> x.dataEnvio <= s[0].dataEnvio
  {
    forall x | x in s[1..] ensures x.dataEnvio <= s[0].dataEnvio {
      var j :| 0 <= j < |s[1..]| && s[1..][j] == x;
      assert s[j + 1] == x;
    }
  }

  lemma NewestFirstCons(x: Notification, s: seq<Notification>)
    requires NewestFirst(s) && forall y :: y in s ==> y.dataEnvio <= x.dataEnvio
    ensures NewestFirst([x] + s)
  {
    forall i, j | 0 <= i < j < |[x] + s| ensures ([x] + s)[i].dataEnvio >= ([x] + s)[j].dataEnvio {
      assert ([x] + s)[j] == s[j - 1];
      if i == 0 {
        assert s[j - 1] in s;
      } else {
        assert ([x] + s)[i] == s[i - 1];
      }
    }
  }

  function InsertByDate(n: Notification, s: seq<Notification>): (r: seq<Notification>)
    requires NewestFirst(s)
    ensures NewestFirst(r)
    ensures multiset(r) == multiset(s) + multiset{n}
  {
    if s == [] || n.dataEnvio >= s[0].dataEnvio then
      NewestFirstPrepend(n, s);
      [n] + s
    else
      NewestFirstTail(s);
      var rest := InsertByDate(n, s[1..]);
      assert forall x :: x in rest ==> x in multiset(rest);
      NewestFirstCons(s[0], rest);
      assert s == [s[0]] + s[1..];
      [s[0]] + rest
  }

  /** A notification no older than the head of a newest-first list can go in front of it. */
  lemma NewestFirstPrepend(n: Notification, s: seq<Notification>)
    requires NewestFirst(s) && (s == [] || n.dataEnvio >= s[0].dataEnvio)
    ensures NewestFirst([n] + s)
  {
    if s != [] {
      NewestFirstTail(s);
    }
    NewestFirstCons(n, s);
  }

  /** `ORDER BY dataEnvio DESC`: a newest-first permutation of `s`. */
  function SortNewestFirst(s: seq<Notification>): (r: seq<Notification>)
    ensures NewestFirst(r)
    ensures multiset(r) == multiset(s)
  {
    if s == [] then []
    else
      assert s == [s[0]] + s[1..];
      InsertByDate(s[0], SortNewestFirst(s[1..]))
  }

  // ----- Marking as read -----

  predicate OwnedNotification(n: Notification, id: nat, idUsuario: nat) {
    n.id == id && n.idUsuario == idUsuario
  }

  /** `UPDATE notificacoes SET lida = TRUE WHERE id = ? AND idUsuario = ?`. */
  function MarkRead(rows: seq<Notification>, id: nat, idUsuario: nat): (r: seq<Notification>)
    ensures |r| == |rows|
    ensures forall k :: 0 <= k < |rows| ==> r[k].(lida := rows[k].lida) == rows[k]
    ensures forall k :: 0 <= k < |rows| ==> r[k].lida == (rows[k].lida || OwnedNotification(rows[k], id, idUsuario))
  {
    seq(|rows|, k requires 0 <= k < |rows| =>
      if OwnedNotification(rows[k], id, idUsuario) then rows[k].(lida := true) else rows[k])
  }

  /**
   * Read-marking as seen in the unread lists: the caller's list loses exactly the marked
   * notification, and every other user's list is unchanged.
   */
  lemma MarkReadUnread(rows: seq<Notification>, id: nat, idUsuario: nat, viewer: nat)
    ensures forall n :: n in Unread(MarkRead(rows, id, idUsuario), viewer) <==>
      n in Unread(rows, viewer) && !(viewer == idUsuario && n.id == id)
  {
    var m := MarkRead(rows, id, idUsuario);
    forall n ensures n in Unread(m, viewer) <==> n in Unread(rows, viewer) && !(viewer == idUsuario && n.id == id) {
      if n in Unread(m, viewer) {
        var k :| 0 <= k < |m| && m[k] == n;
        assert m[k] == rows[k];
      }
      if n in Unread(rows, viewer) && !(viewer == idUsuario && n.id == id) {
        var k :| 0 <= k < |rows| && rows[k] == n;
        assert m[k] == n;
      }
    }
  }

  /** An id the caller does not own: no row changes (the controller answers 404). */
  lemma MarkReadNotOwnedIsNoop(rows: seq<Notification>, id: nat, idUsuario: nat)
    requires forall n :: n in rows ==> !OwnedNotification(n, id, idUsuario)
    ensures MarkRead(rows, id, idUsuario) == rows
  {
    forall k | 0 <= k < |rows| ensures MarkRead(rows, id, idUsuario)[k] == rows[k] {
      assert rows[k] in rows;
    }
  }

  /** Marking the same notification twice is the same as marking it once. */
  lemma MarkReadIdempotent(rows: seq<Notification>, id: nat, idUsuario: nat)
    ensures MarkRead(MarkRead(rows, id, idUsuario), id, idUsuario) == MarkRead(rows, id, idUsuario)
  {
  }

  /** Marking changes only read flags, so the dedup invariant and the auto-increment invariant survive. */
  lemma MarkReadKeepsInvariants(s: State, id: nat, idUsuario: nat)
    requires ValidState(s)
    ensures AtMostOnePerTask(s.rows) ==> AtMostOnePerTask(MarkRead(s.rows, id, idUsuario))
    ensures ValidState(State(MarkRead(s.rows, id, idUsuario), s.nextId))
  {
    var m := MarkRead(s.rows, id, idUsuario);
    forall n | n in m ensures n.id < s.nextId {
      var k :| 0 <= k < |m| && m[k] == n;
      assert s.rows[k] in s.rows;
    }
  }

  class NotificationTable {
    var rows: seq<Notification>
    var nextId: nat

    ghost predicate Valid()
      reads this
    {
      ValidState(State(rows, nextId))
    }

    function Snapshot(): State
      reads this
    {
      State(rows, nextId)
    }

    constructor ()
      ensures Valid() && rows == [] && nextId == 1
    {
      rows := [];
      nextId := 1;
    }

    /**
     * `generateForUser`: for each of the caller's pending tasks with a deadline, in order,
     * computes the message and inserts a notification when there is one and no
     * notification for that task exists yet. The tasks table is only read.
     */
    method GenerateForUser(tasks: TaskTable, idUsuario: nat, hoje: int, agora: int)
      requires Valid()
      modifies this
      ensures Valid()
      ensures Snapshot() == Generate(old(Snapshot()), PendingWithDeadline(tasks.rows, idUsuario), idUsuario, hoje, agora)
      ensures old(rows) <= rows
      ensures AtMostOnePerTask(old(rows)) ==> AtMostOnePerTask(rows)
      ensures unchanged(tasks)
    {
      var due := PendingWithDeadline(tasks.rows, idUsuario);
      var i := 0;
      while i < |due|
        invariant 0 <= i <= |due|
        invariant Valid()
        invariant Snapshot() == Generate(old(Snapshot()), due[..i], idUsuario, hoje, agora)
      {
        var task := due[i];
        var mensagem := MessageFor(task, hoje);
        if mensagem != "" {
          var existing := HasTask(rows, task.id);
          if !existing {
            rows := rows + [Notification(nextId, idUsuario, task.id, mensagem, agora, false)];
            nextId := nextId + 1;
          }
        }
        assert due[..i + 1][..i] == due[..i];
        i := i + 1;
      }
      assert due[..|due|] == due;
      GenerateOnlyAppends(old(Snapshot()), due, idUsuario, hoje, agora);
      if AtMostOnePerTask(old(rows)) {
        GenerateKeepsAtMostOne(old(Snapshot()), due, idUsuario, hoje, agora);
      }
    }

    /** `findUnreadByUser`: the caller's unread notifications, newest first. */
    function FindUnreadByUser(idUsuario: nat): (r: seq<Notification>)
      reads this
      ensures forall n :: n in r <==> n in rows && n.idUsuario == idUsuario && !n.lida
      ensures multiset(r) == multiset(Unread(rows, idUsuario))
      ensures NewestFirst(r)
    {
      var r := SortNewestFirst(Unread(rows, idUsuario));
      assert forall n :: n in r <==> n in multiset(r);
      r
    }

    /**
     * `markAsRead`: true iff the caller owns a notification with that id; that row's
     * `lida` becomes true and every other row stays as it was.
     */
    method MarkAsRead(idNotificacao: nat, idUsuario: nat) returns (ok: bool)
      requires Valid()
      modifies this
      ensures Valid() && nextId == old(nextId)
      ensures ok <==> exists n :: n in old(rows) && OwnedNotification(n, idNotificacao, idUsuario)
      ensures rows == MarkRead(old(rows), idNotificacao, idUsuario)
    {
      ok := false;
      var i := 0;
      while i < |rows|
        invariant 0 <= i <= |rows| == |old(rows)|
        invariant forall k :: 0 <= k < i ==> rows[k] == MarkRead(old(rows), idNotificacao, idUsuario)[k]
        invariant forall k :: i <= k < |rows| ==> rows[k] == old(rows)[k]
        invariant ok <==> exists k :: 0 <= k < i && OwnedNotification(old(rows)[k], idNotificacao, idUsuario)
        invariant nextId == old(nextId)
      {
        if OwnedNotification(rows[i], idNotificacao, idUsuario) {
          rows := rows[i := rows[i].(lida := true)];
          ok := true;
        }
        i := i + 1;
      }
      assert rows == MarkRead(old(rows), idNotificacao, idUsuario);
      MarkReadKeepsInvariants(old(Snapshot()), idNotificacao, idUsuario);
    }
  }
}

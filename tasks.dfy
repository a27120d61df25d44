/** The `tarefas` table and the owner-scoped operations on it (model `Tarefa`). */
module Tasks {
  import opened Wrappers

  datatype Status = Pendente | Concluida

  /** A row of `tarefas`. `prazo` is a day number: deadlines carry no time of day. */
  datatype Task = Task(
    id: nat,
    titulo: string,
    descricao: Option<string>,
    prazo: Option<int>,
    prioridade: string,
    status: Status,
    idUsuario: nat)

  /** The body accepted by `create`; `None` is an absent field (for `prazo` also the empty date text). */
  datatype NewTask = NewTask(
    titulo: string,
    descricao: Option<string>,
    prazo: Option<int>,
    prioridade: Option<string>)

  /** What `create` hands back: the fresh id, the input exactly as given, the status and the owner. */
  datatype CreatedTask = CreatedTask(id: nat, data: NewTask, status: Status, idUsuario: nat)

  /** The partial body accepted by `update`; `None` is an absent (or null) field. */
  datatype TaskPatch = TaskPatch(
    titulo: Option<string>,
    descricao: Option<string>,
    prazo: Option<int>,
    prioridade: Option<string>,
    status: Option<Status>)

  const DefaultPriority: string := "media"

  /** JavaScript truthiness of an optional text: absent, null and "" are falsy. */
  predicate Truthy(o: Option<string>) {
    o.Some? && o.value != ""
  }

  /** Auto-increment ids: rows are kept in insertion order, so ids strictly increase. */
  ghost predicate IdsIncreasing(rows: seq<Task>) {
    forall i, j :: 0 <= i < j < |rows| ==> rows[i].id < rows[j].id
  }

  ghost predicate IdsBelow(rows: seq<Task>, bound: nat) {
    forall t :: t in rows ==> t.id < bound
  }

  /** Is `t` the row with this id owned by this user? */
  predicate Owned(t: Task, id: nat, idUsuario: nat) {
    t.id == id && t.idUsuario == idUsuario
  }

  /** The row `create` inserts: forced status, defaulted priority, NULL for a falsy description. */
  function NewRow(id: nat, data: NewTask, idUsuario: nat): (t: Task)
    ensures t.id == id && t.idUsuario == idUsuario && t.titulo == data.titulo
    ensures t.status == Pendente
    ensures t.prioridade != ""
    ensures Truthy(data.prioridade) ==> t.prioridade == data.prioridade.value
    ensures !Truthy(data.prioridade) ==> t.prioridade == DefaultPriority
    ensures t.descricao != Some("")
    ensures Truthy(data.descricao) ==> t.descricao == data.descricao
    ensures !Truthy(data.descricao) ==> t.descricao == None
    ensures t.prazo == data.prazo
  {
    Task(id, data.titulo,
         if Truthy(data.descricao) then data.descricao else None,
         data.prazo,
         if Truthy(data.prioridade) then data.prioridade.value else DefaultPriority,
         Pendente, idUsuario)
  }

  /** `SELECT * FROM tarefas WHERE idUsuario = ?`, in table order. */
  function OwnedBy(rows: seq<Task>, idUsuario: nat): (r: seq<Task>)
    ensures forall t :: t in r <==> t in rows && t.idUsuario == idUsuario
  {
    if rows == [] then []
    else
      var rest := OwnedBy(rows[1..], idUsuario);
      assert forall t :: t in rows[1..] ==> t in rows;
      if rows[0].idUsuario == idUsuario then [rows[0]] + rest else rest
  }

  /** Filtering by owner keeps the id order. */
  lemma {:induction false} OwnedByOrdered(rows: seq<Task>, idUsuario: nat)
    requires IdsIncreasing(rows)
    ensures IdsIncreasing(OwnedBy(rows, idUsuario))
  {
    if rows != [] {
      IncreasingTail(rows);
      OwnedByOrdered(rows[1..], idUsuario);
      if rows[0].idUsuario == idUsuario {
        IncreasingCons(rows[0], OwnedBy(rows[1..], idUsuario));
      }
    }
  }

  function Reverse(s: seq<Task>): (r: seq<Task>)
    ensures |r| == |s|
    ensures forall i :: 0 <= i < |s| ==> r[i] == s[|s| - 1 - i]
  {
    if s == [] then [] else Reverse(s[1..]) + [s[0]]
  }

  /** `SELECT * FROM tarefas WHERE id = ? AND idUsuario = ?`, first row. */
  function FindOwned(rows: seq<Task>, id: nat, idUsuario: nat): (r: Option<Task>)
    ensures r.Some? <==> exists t :: t in rows && Owned(t, id, idUsuario)
    ensures r.Some? ==> r.value in rows && Owned(r.value, id, idUsuario)
  {
    if rows == [] then None
    else if Owned(rows[0], id, idUsuario) then Some(rows[0])
    else FindOwned(rows[1..], id, idUsuario)
  }

  /**
   * The merge of `update`: a truthy new value replaces the stored one, a falsy or absent
   * one keeps it. Only the five columns of the UPDATE's SET list can change.
   */
  function Merge(t: Task, p: TaskPatch): (r: Task)
    ensures r.id == t.id && r.idUsuario == t.idUsuario
  {
    t.(titulo := if Truthy(p.titulo) then p.titulo.value else t.titulo,
       descricao := if Truthy(p.descricao) then p.descricao else t.descricao,
       prazo := if p.prazo.Some? then p.prazo else t.prazo,
       prioridade := if Truthy(p.prioridade) then p.prioridade.value else t.prioridade,
       status := if p.status.Some? then p.status.value else t.status)
  }

  /** `UPDATE tarefas SET ... WHERE id = ?`: every row with that id becomes `t`. */
  function ReplaceById(rows: seq<Task>, id: nat, t: Task): seq<Task> {
    seq(|rows|, k requires 0 <= k < |rows| => if rows[k].id == id then t else rows[k])
  }

  /** `DELETE FROM tarefas WHERE id = ? AND idUsuario = ?`. */
  function RemoveOwned(rows: seq<Task>, id: nat, idUsuario: nat): (r: seq<Task>)
    ensures forall t :: t in r <==> t in rows && !Owned(t, id, idUsuario)
    ensures |r| <= |rows|
    ensures |r| == |rows| <==> forall t :: t in rows ==> !Owned(t, id, idUsuario)
  {
    if rows == [] then []
    else
      var rest := RemoveOwned(rows[1..], id, idUsuario);
      assert forall t :: t in rows[1..] ==> t in rows;
      if Owned(rows[0], id, idUsuario) then rest else [rows[0]] + rest
  }

  /** Deleting keeps the id order, and (ids being unique) removes at most one row. */
  lemma {:induction false} RemoveOwnedOrdered(rows: seq<Task>, id: nat, idUsuario: nat)
    requires IdsIncreasing(rows)
    ensures IdsIncreasing(RemoveOwned(rows, id, idUsuario))
    ensures |RemoveOwned(rows, id, idUsuario)| + 1 >= |rows|
  {
    if rows != [] {
      var rest := RemoveOwned(rows[1..], id, idUsuario);
      IncreasingTail(rows);
      RemoveOwnedOrdered(rows[1..], id, idUsuario);
      if Owned(rows[0], id, idUsuario) {
        assert forall t :: t in rows[1..] ==> !Owned(t, id, idUsuario);
      } else {
        IncreasingCons(rows[0], rest);
      }
    }
  }

  lemma IncreasingTail(rows: seq<Task>)
    requires IdsIncreasing(rows) && rows != []
    ensures IdsIncreasing(rows[1..])
    ensures forall t :: t in rows[1..] ==> rows[0].id < t.id
  {
    forall t | t in rows[1..] ensures rows[0].id < t.id {
      var j :| 0 <= j < |rows[1..]| && rows[1..][j] == t;
      assert rows[j + 1] == t;
    }
  }

  lemma IncreasingCons(x: Task, s: seq<Task>)
    requires IdsIncreasing(s) && forall t :: t in s ==> x.id < t.id
    ensures IdsIncreasing([x] + s)
  {
    forall i, j | 0 <= i < j < |[x] + s| ensures ([x] + s)[i].id < ([x] + s)[j].id {
      if i == 0 {
        assert ([x] + s)[j] == s[j - 1];
        assert s[j - 1] in s;
      } else {
        assert ([x] + s)[i] == s[i - 1] && ([x] + s)[j] == s[j - 1];
      }
    }
  }

  class TaskTable {
    var rows: seq<Task>
    var nextId: nat

    ghost predicate Valid()
      reads this
    {
      IdsIncreasing(rows) && IdsBelow(rows, nextId)
    }

    constructor ()
      ensures Valid() && rows == [] && nextId == 1
    {
      rows := [];
      nextId := 1;
    }

    /** `create`: inserts the defaulted row under a fresh id and reports the input as given. */
    method Create(data: NewTask, idUsuario: nat) returns (r: CreatedTask)
      requires Valid()
      modifies this
      ensures Valid()
      ensures rows == old(rows) + [NewRow(old(nextId), data, idUsuario)]
      ensures nextId == old(nextId) + 1
      ensures r == CreatedTask(old(nextId), data, Pendente, idUsuario)
      ensures forall t :: t in old(rows) ==> t.id != r.id
    {
      var insertId := nextId;
      rows := rows + [NewRow(insertId, data, idUsuario)];
      nextId := nextId + 1;
      r := CreatedTask(insertId, data, Pendente, idUsuario);
    }

    /** `findByUser`: exactly the caller's rows, highest id first. */
    function FindByUser(idUsuario: nat): (r: seq<Task>)
      reads this
      requires Valid()
      ensures forall t :: t in r <==> t in rows && t.idUsuario == idUsuario
      ensures forall i, j :: 0 <= i < j < |r| ==> r[i].id > r[j].id
    {
      var owned := OwnedBy(rows, idUsuario);
      OwnedByOrdered(rows, idUsuario);
      var r := Reverse(owned);
      assert forall t :: t in r <==> t in owned by {
        forall t | t in owned ensures t in r {
          var i :| 0 <= i < |owned| && owned[i] == t;
          assert r[|owned| - 1 - i] == t;
        }
      }
      r
    }

    /**
     * `update`: false and no change unless the caller owns a row with that id; otherwise
     * that row, and no other, takes the merge of its stored fields with `data`.
     */
    method Update(id: nat, idUsuario: nat, data: TaskPatch) returns (ok: bool)
      requires Valid()
      modifies this
      ensures Valid() && nextId == old(nextId)
      ensures ok <==> exists t :: t in old(rows) && Owned(t, id, idUsuario)
      ensures |rows| == |old(rows)|
      ensures forall k :: 0 <= k < |rows| ==>
        rows[k] == if ok && old(rows)[k].id == id then Merge(old(rows)[k], data) else old(rows)[k]
    {
      var existing := FindOwned(rows, id, idUsuario);
      if existing.None? {
        return false;
      }
      var merged := Merge(existing.value, data);
      forall k | 0 <= k < |rows| && rows[k].id == id
        ensures rows[k] == existing.value
      {
        var j :| 0 <= j < |rows| && rows[j] == existing.value;
        assert rows[j].id == rows[k].id;
      }
      rows := ReplaceById(rows, id, merged);
      ok := true;
    }

    /** `delete`: removes exactly the caller's row with that id; true iff there was one. */
    method Delete(id: nat, idUsuario: nat) returns (ok: bool)
      requires Valid()
      modifies this
      ensures Valid() && nextId == old(nextId)
      ensures ok <==> exists t :: t in old(rows) && Owned(t, id, idUsuario)
      ensures forall t :: t in rows <==> t in old(rows) && !Owned(t, id, idUsuario)
      ensures rows == RemoveOwned(old(rows), id, idUsuario)
      ensures |rows| == |old(rows)| - (if ok then 1 else 0)
    {
      var before := |rows|;
      RemoveOwnedOrdered(rows, id, idUsuario);
      rows := RemoveOwned(rows, id, idUsuario);
      assert forall t :: t in rows ==> t in old(rows);
      var affectedRows := before - |rows|;
      ok := affectedRows > 0;
    }
  }

  /**
   * The merge rule field by field: a truthy value in the patch replaces the stored one and
   * a falsy or absent one keeps it, whatever the other fields of the patch hold.
   */
  lemma MergeFieldByField(t: Task, p: TaskPatch)
    ensures Truthy(p.titulo) ==> Merge(t, p).titulo == p.titulo.value
    ensures !Truthy(p.titulo) ==> Merge(t, p).titulo == t.titulo
    ensures Truthy(p.descricao) ==> Merge(t, p).descricao == p.descricao
    ensures !Truthy(p.descricao) ==> Merge(t, p).descricao == t.descricao
    ensures p.prazo.Some? ==> Merge(t, p).prazo == p.prazo
    ensures p.prazo.None? ==> Merge(t, p).prazo == t.prazo
    ensures Truthy(p.prioridade) ==> Merge(t, p).prioridade == p.prioridade.value
    ensures !Truthy(p.prioridade) ==> Merge(t, p).prioridade == t.prioridade
    ensures p.status.Some? ==> Merge(t, p).status == p.status.value
    ensures p.status.None? ==> Merge(t, p).status == t.status
  {
  }

  /** The status toggle sends `{status}` alone: only the status changes. */
  lemma MergeStatusOnly(t: Task, s: Status)
    ensures Merge(t, TaskPatch(None, None, None, None, Some(s))) == t.(status := s)
  {
  }

  /**
   * With unique ids and a replacement that keeps the id, `UPDATE ... WHERE id = ?` keeps the
   * ids increasing and changes at most one row.
   */
  lemma ReplaceByIdChangesOneRow(rows: seq<Task>, id: nat, t: Task)
    requires IdsIncreasing(rows) && t.id == id
    ensures IdsIncreasing(ReplaceById(rows, id, t))
    ensures forall k :: 0 <= k < |rows| ==> ReplaceById(rows, id, t)[k].id == rows[k].id
    ensures forall i, j :: 0 <= i < j < |rows| && ReplaceById(rows, id, t)[i] != rows[i] ==>
      ReplaceById(rows, id, t)[j] == rows[j]
  {
  }

  /** A patch with no truthy field leaves the row exactly as it was. */
  lemma MergeFalsyPatchIsIdentity(t: Task, p: TaskPatch)
    requires !Truthy(p.titulo) && !Truthy(p.descricao) && !Truthy(p.prioridade)
    requires p.prazo.None? && p.status.None?
    ensures Merge(t, p) == t
  {
  }

  /** No update can clear a field: a stored description or deadline survives every patch. */
  lemma MergeNeverClears(t: Task, p: TaskPatch)
    ensures t.descricao.Some? ==> Merge(t, p).descricao.Some?
    ensures t.prazo.Some? ==> Merge(t, p).prazo.Some?
    ensures t.titulo != "" ==> Merge(t, p).titulo != ""
    ensures t.prioridade != "" ==> Merge(t, p).prioridade != ""
  {
  }

  /** Applying the same patch twice is the same as applying it once. */
  lemma MergeIdempotent(t: Task, p: TaskPatch)
    ensures Merge(Merge(t, p), p) == Merge(t, p)
  {
  }

  /**
   * Owner isolation: another user's update and delete of a task both report "not found" and
   * leave the table as it was, and that user's listing does not show the task.
   */
  method OtherUserCannotTouch(table: TaskTable, id: nat, owner: nat, intruder: nat, data: TaskPatch)
    returns (updated: bool, deleted: bool, listed: seq<Task>)
    requires table.Valid()
    requires intruder != owner && exists t :: t in table.rows && Owned(t, id, owner)
    modifies table
    ensures !updated && !deleted
    ensures table.rows == old(table.rows) && table.nextId == old(table.nextId)
    ensures forall t :: t in listed ==> t.idUsuario == intruder
  {
    forall t | t in table.rows && t.id == id ensures t.idUsuario == owner {
      var t0 :| t0 in table.rows && Owned(t0, id, owner);
      var i :| 0 <= i < |table.rows| && table.rows[i] == t;
      var j :| 0 <= j < |table.rows| && table.rows[j] == t0;
      assert i == j;
    }
    updated := table.Update(id, intruder, data);
    assert table.rows == old(table.rows);
    deleted := table.Delete(id, intruder);
    assert table.rows == old(table.rows) by {
      RemoveOwnedUnchanged(old(table.rows), id, intruder);
    }
    listed := table.FindByUser(intruder);
  }

  lemma {:induction false} RemoveOwnedUnchanged(rows: seq<Task>, id: nat, idUsuario: nat)
    requires forall t :: t in rows ==> !Owned(t, id, idUsuario)
    ensures RemoveOwned(rows, id, idUsuario) == rows
  {
    if rows != [] {
      assert forall t :: t in rows[1..] ==> t in rows;
      RemoveOwnedUnchanged(rows[1..], id, idUsuario);
    }
  }
}

/**
 The exported functions of database/queries.ts as members of one object that
 owns the testTodos table. Each statement is a method or function whose
 effect is the WHERE-clause semantics of module TodoTable; pullData and
 deleteOldRecords are the loops of the source, proved against module
 Reconcile.
 */
module Store {
  import opened TodoTable
  import opened Reconcile

  /** What insertTodo does: the row goes in, or the primary key rejects it. */
  datatype InsertOutcome = Inserted | ConstraintViolation

  /** How pullData ends: at the early return for an empty batch, or after the prune. */
  datatype PullOutcome = NoData | Synced

  class TodoStore {
    /** The rows of testTodos, in storage order. */
    var rows: seq<Row>

    /** The table constraint PRIMARY KEY (id, device). */
    predicate Valid()
      reads this
    {
      KeysUnique(rows)
    }

    /** A freshly created, empty testTodos table. */
    constructor ()
      ensures Valid() && rows == []
    {
      rows := [];
    }

    /** SELECT * FROM testTodos ORDER BY id DESC. */
    function GetAllTodos(): (r: seq<Row>)
      reads this
      ensures SortedByIdDesc(r)
      ensures multiset(r) == multiset(rows)
    {
      SortByIdDescCorrect(rows);
      SortByIdDesc(rows)
    }

    /** SELECT * FROM testTodos WHERE device = ? ORDER BY id DESC. */
    function GetMyTodos(device: string): (r: seq<Row>)
      reads this
      ensures SortedByIdDesc(r)
      ensures forall x :: multiset(r)[x] == if x.device == device then multiset(rows)[x] else 0
    {
      SortByIdDescCorrect(OfDevice(rows, device));
      SortByIdDesc(OfDevice(rows, device))
    }

    /** checkIfRecordExists: does a row with this (id, device) exist? */
    function CheckIfRecordExists(device: string, id: int): (b: bool)
      reads this
      ensures b <==> exists x :: x in rows && KeyOf(x) == (id, device)
    {
      Has(rows, device, id)
    }

    /** INSERT INTO testTodos VALUES (?,?,?,?): rejected when the key is taken, else appends the row. */
    method InsertTodo(r: Row) returns (res: InsertOutcome)
      requires Valid()
      modifies this
      ensures Valid()
      ensures old(CheckIfRecordExists(r.device, r.id)) ==> res == ConstraintViolation && rows == old(rows)
      ensures !old(CheckIfRecordExists(r.device, r.id)) ==> res == Inserted && rows == old(rows) + [r]
    {
      if Has(rows, r.device, r.id) {
        res := ConstraintViolation;
      } else {
        UniqueAppend(rows, r);
        rows := rows + [r];
        res := Inserted;
      }
    }

    /** UPDATE testTodos SET title = ?, content = ? WHERE id = ?, on every device. */
    method UpdateTodo(id: int, title: string, content: string)
      requires Valid()
      modifies this
      ensures Valid()
      ensures rows == SetById(old(rows), id, title, content)
    {
      SetByIdKeys(rows, id, title, content, "", id);
      rows := SetById(rows, id, title, content);
    }

    /** DELETE FROM testTodos WHERE id = ?, on every device. */
    method DeleteTodo(id: int)
      requires Valid()
      modifies this
      ensures Valid()
      ensures rows == DeleteById(old(rows), id)
    {
      rows := DeleteById(rows, id);
    }

    /**
     deleteOldRecords: read the ids of the rows of the first entry's device,
     and delete every one of them that no batch entry carries.
     */
    method DeleteOldRecords(data: seq<Row>)
      requires Valid() && data != []
      modifies this
      ensures Valid()
      ensures rows == DeleteIds(old(rows), StaleIds(old(rows), data[0].device, Ids(data)))
    {
      var clientIds := Ids(data);
      var idsToDelete := StaleIds(rows, data[0].device, clientIds);
      ghost var before := rows;
      if |idsToDelete| > 0 {
        for k := 0 to |idsToDelete|
          invariant Valid()
          invariant rows == DeleteIds(before, idsToDelete[..k])
        {
          DeleteIdsPrefix(before, idsToDelete, k);
          DeleteTodo(idsToDelete[k]);
        }
        assert idsToDelete[..|idsToDelete|] == idsToDelete;
      }
    }

    /**
     pullData: return at once on an empty batch; otherwise update or insert
     each admissible entry in batch order, then prune.
     */
    method PullData(data: seq<Row>) returns (outcome: PullOutcome)
      requires Valid()
      modifies this
      ensures Valid()
      ensures rows == Pull(old(rows), data)
      ensures outcome == if data == [] then NoData else Synced
    {
      if |data| == 0 {
        return NoData;
      }
      ghost var before := rows;
      for i := 0 to |data|
        invariant Valid()
        invariant rows == Upserts(before, data[..i])
      {
        assert data[..i + 1][..i] == data[..i];
        var record := data[i];
        if !Admissible(record) {
          continue;
        }
        var existing := CheckIfRecordExists(record.device, record.id);
        if existing {
          UpdateTodo(record.id, record.title, record.content);
        } else {
          var res := InsertTodo(record);
          // the key was just found absent, so the primary key never rejects this insert
          assert res == Inserted;
        }
      }
      assert data[..|data|] == data;
      DeleteOldRecords(data);
      outcome := Synced;
    }
  }
}

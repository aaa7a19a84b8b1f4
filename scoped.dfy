/**
 pullData as its design intends it, with every write scoped by the full key
 (id, device): the update is UPDATE ... WHERE id = ? AND device = ?, and the
 prune deletes only rows of the first entry's device. Beside it, concrete
 tables on which the statements as written in queries.ts (update and delete
 by id alone) reach across devices, and on which a repeated pullData is not
 idempotent.
 */
module OwnerScoped {
  import opened TodoTable
  import opened Reconcile

  /** UPDATE testTodos SET title = ?, content = ? WHERE id = ? AND device = ?. */
  function SetByKey(t: seq<Row>, id: int, device: string, title: string, content: string): (r: seq<Row>)
    ensures |r| == |t|
    ensures forall k :: 0 <= k < |t| ==>
      r[k] == if KeyOf(t[k]) == (id, device) then Row(id, device, title, content) else t[k]
  {
    if t == [] then []
    else
      [if KeyOf(t[0]) == (id, device) then t[0].(title := title, content := content) else t[0]]
      + SetByKey(t[1..], id, device, title, content)
  }

  /** DELETE FROM testTodos WHERE id = ? AND device = ?, once per id of ids. */
  function DeleteOwnIds(t: seq<Row>, device: string, ids: seq<int>): (r: seq<Row>)
    ensures forall x :: multiset(r)[x] == if x.device == device && x.id in ids then 0 else multiset(t)[x]
  {
    Where(t, (x: Row) => !(x.device == device && x.id in ids))
  }

  /** One pass of the owner-scoped loop. */
  function StepScoped(t: seq<Row>, r: Row): seq<Row>
  {
    if !Admissible(r) then t
    else if Has(t, r.device, r.id) then SetByKey(t, r.id, r.device, r.title, r.content)
    else t + [r]
  }

  /** The owner-scoped loop over the whole batch. */
  function UpsertsScoped(t: seq<Row>, data: seq<Row>): seq<Row>
    decreases |data|
  {
    if data == [] then t
    else StepScoped(UpsertsScoped(t, data[..|data| - 1]), data[|data| - 1])
  }

  /** The owner-scoped pullData: the scoped loop, then a prune of the first entry's device only. */
  function PullScoped(t: seq<Row>, data: seq<Row>): seq<Row>
  {
    if data == [] then t
    else
      var u := UpsertsScoped(t, data);
      DeleteOwnIds(u, data[0].device, StaleIds(u, data[0].device, Ids(data)))
  }

  /**
   The value the scoped loop leaves in a row that starts as x: the last
   admissible entry with x's key, or x itself when no entry has that key.
   */
  function LastWrite(x: Row, data: seq<Row>): (r: Row)
    ensures KeyOf(r) == KeyOf(x)
    decreases |data|
  {
    if data == [] then x
    else
      var e := data[|data| - 1];
      if Admissible(e) && KeyOf(e) == KeyOf(x) then e else LastWrite(x, data[..|data| - 1])
  }

  /** A row of another device is in the table after one scoped pass exactly when it was before. */
  lemma StepScopedOther(t: seq<Row>, r: Row, x: Row)
    requires x.device != r.device
    ensures x in StepScoped(t, r) <==> x in t
  {
    if Admissible(r) && Has(t, r.device, r.id) {
      var s := SetByKey(t, r.id, r.device, r.title, r.content);
      if x in t {
        var k :| 0 <= k < |t| && t[k] == x;
        assert s[k] == x;
      }
      if x in s {
        var k :| 0 <= k < |s| && s[k] == x;
        assert t[k] == x;
      }
    }
  }

  /** The scoped loop neither changes, adds nor removes a row of a device no entry names. */
  lemma {:induction false} UpsertsScopedOther(t: seq<Row>, data: seq<Row>, x: Row)
    requires forall k :: 0 <= k < |data| ==> data[k].device != x.device
    ensures x in UpsertsScoped(t, data) <==> x in t
    decreases |data|
  {
    if data != [] {
      var front := data[..|data| - 1];
      assert forall k :: 0 <= k < |front| ==> front[k] == data[k];
      UpsertsScopedOther(t, front, x);
      StepScopedOther(UpsertsScoped(t, front), data[|data| - 1], x);
    }
  }

  /**
   Owner isolation: a row whose device no batch entry names is in the
   table after the owner-scoped pullData exactly when it was before.
   */
  lemma PullScopedIsolates(t: seq<Row>, data: seq<Row>, x: Row)
    requires forall k :: 0 <= k < |data| ==> data[k].device != x.device
    ensures x in PullScoped(t, data) <==> x in t
  {
    UpsertsScopedOther(t, data, x);
    if data != [] {
      var u := UpsertsScoped(t, data);
      var r := PullScoped(t, data);
      assert multiset(r)[x] == multiset(u)[x];
      assert x in r <==> multiset(r)[x] > 0;
      assert x in u <==> multiset(u)[x] > 0;
    }
  }

  /** One scoped pass keeps every key and adds the entry's key when it is admissible. */
  lemma StepScopedKeys(t: seq<Row>, r: Row, device: string, id: int)
    ensures Has(t, device, id) ==> Has(StepScoped(t, r), device, id)
    ensures Admissible(r) ==> Has(StepScoped(t, r), r.device, r.id)
  {
    if Admissible(r) && Has(t, r.device, r.id) {
      var s := SetByKey(t, r.id, r.device, r.title, r.content);
      if Has(t, device, id) {
        var x :| x in t && x.device == device && x.id == id;
        var k :| 0 <= k < |t| && t[k] == x;
        assert s[k] in s;
      }
      var x :| x in t && x.device == r.device && x.id == r.id;
      var k :| 0 <= k < |t| && t[k] == x;
      assert s[k] in s;
    }
  }

  /** After the scoped loop every admissible entry's key is in the table. */
  lemma {:induction false} UpsertsScopedCover(t: seq<Row>, data: seq<Row>, k: int)
    requires 0 <= k < |data| && Admissible(data[k])
    ensures Has(UpsertsScoped(t, data), data[k].device, data[k].id)
    decreases |data|
  {
    var n := |data| - 1;
    var front := data[..n];
    if k < n {
      assert front[k] == data[k];
      UpsertsScopedCover(t, front, k);
    }
    StepScopedKeys(UpsertsScoped(t, front), data[n], data[k].device, data[k].id);
  }

  /** Every row the scoped loop leaves holds the last write to its key. */
  lemma {:induction false} UpsertsScopedSettled(t: seq<Row>, data: seq<Row>, x: Row)
    requires x in UpsertsScoped(t, data)
    ensures LastWrite(x, data) == x
    decreases |data|
  {
    if data == [] {
      return;
    }
    var n := |data| - 1;
    var front := data[..n];
    var u := UpsertsScoped(t, front);
    var e := data[n];
    if !Admissible(e) {
      UpsertsScopedSettled(t, front, x);
    } else if Has(u, e.device, e.id) {
      var s := SetByKey(u, e.id, e.device, e.title, e.content);
      var k :| 0 <= k < |s| && s[k] == x;
      if KeyOf(u[k]) != KeyOf(e) {
        assert u[k] == x;
        UpsertsScopedSettled(t, front, x);
      }
    } else if x != e {
      assert x in u;
      UpsertsScopedSettled(t, front, x);
    }
  }

  /**
   On a table that already holds every admissible entry's key, the scoped
   loop adds and removes nothing and leaves the last write in each row.
   */
  lemma {:induction false} UpsertsScopedOnCovered(u: seq<Row>, data: seq<Row>)
    requires forall k :: 0 <= k < |data| && Admissible(data[k]) ==> Has(u, data[k].device, data[k].id)
    ensures |UpsertsScoped(u, data)| == |u|
    ensures forall i :: 0 <= i < |u| ==> UpsertsScoped(u, data)[i] == LastWrite(u[i], data)
    decreases |data|
  {
    if data != [] {
      var n := |data| - 1;
      var front := data[..n];
      var e := data[n];
      assert forall k :: 0 <= k < |front| ==> front[k] == data[k];
      UpsertsScopedOnCovered(u, front);
      var v := UpsertsScoped(u, front);
      if Admissible(e) {
        var x :| x in u && x.device == e.device && x.id == e.id;
        var k :| 0 <= k < |u| && u[k] == x;
        assert KeyOf(v[k]) == KeyOf(u[k]);
        assert v[k] in v;
      }
    }
  }

  /** A WHERE clause every row satisfies selects the whole table. */
  lemma {:induction false} WhereAll(t: seq<Row>, keep: Row -> bool)
    requires forall x :: x in t ==> keep(x)
    ensures Where(t, keep) == t
  {
    if t != [] {
      assert t == [t[0]] + t[1..];
      WhereAll(t[1..], keep);
    }
  }

  /**
   Every row the owner-scoped pullData leaves holds the last write to its key,
   and a surviving row of the first entry's device carries a batch id.
   */
  lemma PullScopedSettled(t: seq<Row>, data: seq<Row>, x: Row)
    requires data != [] && x in PullScoped(t, data)
    ensures LastWrite(x, data) == x
    ensures x.device == data[0].device ==> x.id in Ids(data)
  {
    var u := UpsertsScoped(t, data);
    assert multiset(PullScoped(t, data))[x] > 0;
    assert x in multiset(u);
    UpsertsScopedSettled(t, data, x);
  }

  /** After the owner-scoped pullData every admissible entry's key is in the table. */
  lemma PullScopedCover(t: seq<Row>, data: seq<Row>, k: int)
    requires 0 <= k < |data| && Admissible(data[k])
    ensures Has(PullScoped(t, data), data[k].device, data[k].id)
  {
    var u := UpsertsScoped(t, data);
    UpsertsScopedCover(t, data, k);
    var x :| x in u && x.device == data[k].device && x.id == data[k].id;
    assert Ids(data)[k] == x.id;
    assert multiset(PullScoped(t, data))[x] == multiset(u)[x];
    assert x in PullScoped(t, data);
  }

  /**
   Idempotence of the owner-scoped pullData: a second identical call
   leaves the table exactly as the first one did.
   */
  lemma PullScopedIdempotent(t: seq<Row>, data: seq<Row>)
    ensures PullScoped(PullScoped(t, data), data) == PullScoped(t, data)
  {
    if data != [] {
      var d := data[0].device;
      var once := PullScoped(t, data);
      forall k | 0 <= k < |data| && Admissible(data[k])
        ensures Has(once, data[k].device, data[k].id)
      {
        PullScopedCover(t, data, k);
      }
      UpsertsScopedOnCovered(once, data);
      var again := UpsertsScoped(once, data);
      assert again == once by {
        forall i | 0 <= i < |once| ensures again[i] == once[i] {
          PullScopedSettled(t, data, once[i]);
        }
      }
      var stale := StaleIds(once, d, Ids(data));
      assert stale == [] by {
        if stale != [] {
          assert stale[0] in stale && Has(once, d, stale[0]);
          var x :| x in once && x.device == d && x.id == stale[0];
          PullScopedSettled(t, data, x);
        }
      }
      WhereAll(once, (x: Row) => !(x.device == d && x.id in stale));
    }
  }

  // The counterexamples below run the statements as written (update and delete by id alone).

  /**
   A batch from device a rewrites the row of device b that shares the id:
   the as-written pullData loses b's title and content, the owner-scoped
   one keeps them.
   */
  lemma PullRewritesOtherDevice(a: string, b: string)
    requires a != "" && a != b
    ensures var t := [Row(1, a, "a", "a"), Row(1, b, "b", "b")];
            var data := [Row(1, a, "T", "C")];
            Row(1, b, "b", "b") !in Pull(t, data) &&
            Row(1, b, "T", "C") in Pull(t, data) &&
            Row(1, b, "b", "b") in PullScoped(t, data)
  {
    var t := [Row(1, a, "a", "a"), Row(1, b, "b", "b")];
    var data := [Row(1, a, "T", "C")];
    assert data[..0] == [];
    assert t[0] in t;
    var u := SetById(t, 1, "T", "C");
    assert Upserts(t, data) == Step(t, data[0]) == u;
    assert u[1] == Row(1, b, "T", "C") && u[1] in u;
    assert Row(1, b, "b", "b") !in u by {
      assert u[0] == Row(1, a, "T", "C");
    }
    assert Ids(data)[0] == 1;
    PruneExact(t, data, Row(1, b, "b", "b"));
    PruneExact(t, data, Row(1, b, "T", "C"));
    PullScopedIsolates(t, data, Row(1, b, "b", "b"));
  }

  /**
   A batch from device a deletes the row of device b whose id the prune
   picked from a's rows; the owner-scoped prune keeps it.
   */
  lemma PullDeletesOtherDevice(a: string, b: string)
    requires a != "" && a != b
    ensures var t := [Row(2, a, "a", "a"), Row(2, b, "b", "b")];
            var data := [Row(1, a, "T", "C")];
            Row(2, b, "b", "b") !in Pull(t, data) &&
            Row(2, b, "b", "b") in PullScoped(t, data)
  {
    var t := [Row(2, a, "a", "a"), Row(2, b, "b", "b")];
    var data := [Row(1, a, "T", "C")];
    assert t[0] in t;
    UpsertsKeys(t, data, a, 2);
    assert Ids(data) == [1];
    PruneExact(t, data, Row(2, b, "b", "b"));
    PullScopedIsolates(t, data, Row(2, b, "b", "b"));
  }

  /**
   On a table holding b's row with id 1, a batch of an a-entry then a
   b-entry with id 1 runs two updates of every row with id 1.
   */
  lemma SharedIdUpserts(p: seq<Row>, a: string, b: string)
    requires a != "" && b != ""
    requires Has(p, a, 1) && Has(p, b, 1)
    ensures Upserts(p, [Row(1, a, "T1", "C1"), Row(1, b, "T2", "C2")])
         == SetById(SetById(p, 1, "T1", "C1"), 1, "T2", "C2")
  {
    var data := [Row(1, a, "T1", "C1"), Row(1, b, "T2", "C2")];
    assert data[..1] == [data[0]] && data[..1][..0] == [];
    assert Upserts(p, data[..1]) == SetById(p, 1, "T1", "C1");
    SetByIdKeys(p, 1, "T1", "C1", b, 1);
  }

  /**
   On a table holding a's and b's rows with id 1, a batch of an a-entry then
   a b-entry with id 1 leaves b's title and content on a's row too.
   */
  lemma SharedIdLastWins(p: seq<Row>, a: string, b: string)
    requires a != "" && b != ""
    requires Has(p, a, 1) && Has(p, b, 1)
    ensures Row(1, a, "T2", "C2") in Pull(p, [Row(1, a, "T1", "C1"), Row(1, b, "T2", "C2")])
    ensures Row(1, a, "T1", "C1") !in Pull(p, [Row(1, a, "T1", "C1"), Row(1, b, "T2", "C2")])
  {
    var data := [Row(1, a, "T1", "C1"), Row(1, b, "T2", "C2")];
    var q := SetById(p, 1, "T1", "C1");
    var z := SetById(q, 1, "T2", "C2");
    SharedIdUpserts(p, a, b);
    SetByIdKeys(p, 1, "T1", "C1", a, 1);
    SetByIdHit(q, 1, a, "T2", "C2");
    assert Ids(data)[0] == 1;
    PruneExact(p, data, Row(1, a, "T2", "C2"));
    if Row(1, a, "T1", "C1") in z {
      SetByIdOverwritesAll(q, 1, "T2", "C2", Row(1, a, "T1", "C1"));
    }
    PruneExact(p, data, Row(1, a, "T1", "C1"));
  }

  /**
   The as-written pullData is not idempotent: two entries of devices a and
   b sharing id 1 make the second call overwrite a's row with b's title
   and content.
   */
  lemma RepeatPullNotIdempotent(a: string, b: string)
    requires a != "" && b != "" && a != b
    ensures var t := [Row(1, a, "x", "y")];
            var data := [Row(1, a, "T1", "C1"), Row(1, b, "T2", "C2")];
            Pull(Pull(t, data), data) != Pull(t, data)
  {
    var t := [Row(1, a, "x", "y")];
    var data := [Row(1, a, "T1", "C1"), Row(1, b, "T2", "C2")];
    var rowA := Row(1, a, "T1", "C1");
    var rowB := Row(1, b, "T2", "C2");
    assert data[..1] == [data[0]] && data[..1][..0] == [];
    assert Ids(data)[0] == 1;
    // the first call updates a's row, inserts b's row and prunes nothing
    assert t[0] in t;
    var u1 := SetById(t, 1, "T1", "C1");
    assert Upserts(t, data[..1]) == Step(t, data[0]) == u1;
    assert u1 == [rowA];
    assert Upserts(t, data) == u1 + [rowB];
    PruneExact(t, data, rowA);
    PruneExact(t, data, rowB);
    var p1 := Pull(t, data);
    assert rowA in p1 && rowB in p1;
    // the second call writes both entries over both rows
    SharedIdLastWins(p1, a, b);
  }
}

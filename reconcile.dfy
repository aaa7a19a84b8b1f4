/**
 What pullData does to the table, as functions on the row sequence, and what
 can be proved about it: the upsert loop, the prune of deleteOldRecords, and
 their combination. The update and the delete it issues match rows by id
 alone, whatever their device, exactly as the statements of queries.ts do.
 */
module Reconcile {
  import opened TodoTable

  /**
   The JavaScript truthiness test on one batch entry: an entry with id 0 or
   an empty device, title or content is skipped.
   */
  predicate Admissible(r: Row)
  {
    r.id != 0 && r.device != "" && r.title != "" && r.content != ""
  }

  /**
   One pass of the loop: skip an inadmissible entry; otherwise update every
   row with the entry's id when a row with its (id, device) exists, and
   insert the entry when none does.
   */
  function Step(t: seq<Row>, r: Row): seq<Row>
  {
    if !Admissible(r) then t
    else if Has(t, r.device, r.id) then SetById(t, r.id, r.title, r.content)
    else t + [r]
  }

  /** The loop over the whole batch, entry by entry in batch order. */
  function Upserts(t: seq<Row>, data: seq<Row>): seq<Row>
    decreases |data|
  {
    if data == [] then t
    else Step(Upserts(t, data[..|data| - 1]), data[|data| - 1])
  }

  /** The id of every batch entry, skipped entries included. */
  function Ids(data: seq<Row>): seq<int>
  {
    seq(|data|, k requires 0 <= k < |data| => data[k].id)
  }

  /**
   The ids deleteOldRecords deletes: the id of every row of the given device
   whose id is not among clientIds.
   */
  function StaleIds(t: seq<Row>, device: string, clientIds: seq<int>): (r: seq<int>)
    ensures forall i :: i in r <==> i !in clientIds && Has(t, device, i)
  {
    if t == [] then []
    else
      (if t[0].device == device && t[0].id !in clientIds then [t[0].id] else [])
      + StaleIds(t[1..], device, clientIds)
  }

  /**
   pullData on a table: nothing for an empty batch; otherwise the upserts,
   then the deletion of the stale ids of the device of the first entry.
   */
  function Pull(t: seq<Row>, data: seq<Row>): seq<Row>
  {
    if data == [] then t
    else
      var u := Upserts(t, data);
      DeleteIds(u, StaleIds(u, data[0].device, Ids(data)))
  }

  /** No two batch entries share an id. */
  predicate IdsDistinct(data: seq<Row>)
  {
    forall i, j :: 0 <= i < j < |data| ==> data[i].id != data[j].id
  }

  /** The insert branch runs only for a key the table lacks, so one pass keeps keys unique. */
  lemma StepUnique(t: seq<Row>, r: Row)
    requires KeysUnique(t)
    ensures KeysUnique(Step(t, r))
  {
    if Admissible(r) {
      if Has(t, r.device, r.id) {
        SetByIdKeys(t, r.id, r.title, r.content, r.device, r.id);
      } else {
        UniqueAppend(t, r);
      }
    }
  }

  /** One pass adds the entry's key when the entry is admissible, and no other key; no key is lost. */
  lemma StepKeys(t: seq<Row>, r: Row, device: string, id: int)
    ensures Has(Step(t, r), device, id) <==>
      Has(t, device, id) || (Admissible(r) && r.device == device && r.id == id)
  {
    if Admissible(r) && Has(t, r.device, r.id) {
      SetByIdKeys(t, r.id, r.title, r.content, device, id);
    }
  }

  /** The upsert loop keeps the primary key. */
  lemma {:induction false} UpsertsUnique(t: seq<Row>, data: seq<Row>)
    requires KeysUnique(t)
    ensures KeysUnique(Upserts(t, data))
    decreases |data|
  {
    if data != [] {
      UpsertsUnique(t, data[..|data| - 1]);
      StepUnique(Upserts(t, data[..|data| - 1]), data[|data| - 1]);
    }
  }

  /**
   After the upsert loop the table holds a key exactly when it held it before
   or an admissible entry of the batch carries it.
   */
  lemma {:induction false} UpsertsKeys(t: seq<Row>, data: seq<Row>, device: string, id: int)
    ensures Has(Upserts(t, data), device, id) <==>
      Has(t, device, id) ||
      exists k :: 0 <= k < |data| && Admissible(data[k]) && data[k].device == device && data[k].id == id
    decreases |data|
  {
    if data != [] {
      var n := |data| - 1;
      var front := data[..n];
      UpsertsKeys(t, front, device, id);
      StepKeys(Upserts(t, front), data[n], device, id);
      if exists k :: 0 <= k < |data| && Admissible(data[k]) && data[k].device == device && data[k].id == id {
        var k :| 0 <= k < |data| && Admissible(data[k]) && data[k].device == device && data[k].id == id;
        if k < n {
          assert front[k] == data[k];
        }
      }
      if exists k :: 0 <= k < |front| && Admissible(front[k]) && front[k].device == device && front[k].id == id {
        var k :| 0 <= k < |front| && Admissible(front[k]) && front[k].device == device && front[k].id == id;
        assert data[k] == front[k];
      }
    }
  }

  /** A batch whose every entry is skipped changes nothing in the upsert loop. */
  lemma {:induction false} UpsertsAllSkipped(t: seq<Row>, data: seq<Row>)
    requires forall k :: 0 <= k < |data| ==> !Admissible(data[k])
    ensures Upserts(t, data) == t
    decreases |data|
  {
    if data != [] {
      var front := data[..|data| - 1];
      assert forall k :: 0 <= k < |front| ==> front[k] == data[k];
      UpsertsAllSkipped(t, front);
    }
  }

  /**
   The upsert loop leaves a row untouched when no admissible entry carries
   its id: neither its title and content nor its presence change.
   */
  lemma {:induction false} UpsertsFrame(t: seq<Row>, data: seq<Row>, x: Row)
    requires x in t
    requires forall k :: 0 <= k < |data| && Admissible(data[k]) ==> data[k].id != x.id
    ensures x in Upserts(t, data)
    decreases |data|
  {
    if data != [] {
      var n := |data| - 1;
      var front := data[..n];
      assert forall k :: 0 <= k < |front| ==> front[k] == data[k];
      UpsertsFrame(t, front, x);
      var u := Upserts(t, front);
      var last := data[n];
      if Admissible(last) && Has(u, last.device, last.id) {
        SetByIdMiss(u, last.id, last.title, last.content, x);
      }
    }
  }

  /**
   Nothing else changes: after a non-empty batch, a row of the old table
   whose id no admissible entry carries is still there, verbatim, exactly
   when the prune does not take its id.
   */
  lemma PullFrame(t: seq<Row>, data: seq<Row>, x: Row)
    requires data != []
    requires x in t
    requires forall k :: 0 <= k < |data| && Admissible(data[k]) ==> data[k].id != x.id
    ensures x in Pull(t, data) <==> x.id !in StaleIds(Upserts(t, data), data[0].device, Ids(data))
  {
    var u := Upserts(t, data);
    UpsertsFrame(t, data, x);
    var r := Pull(t, data);
    assert multiset(r)[x] == if x.id in StaleIds(u, data[0].device, Ids(data)) then 0 else multiset(u)[x];
    assert x in r <==> multiset(r)[x] > 0;
    assert x in u;
  }

  /** pullData keeps the primary key. */
  lemma PullUnique(t: seq<Row>, data: seq<Row>)
    requires KeysUnique(t)
    ensures KeysUnique(Pull(t, data))
  {
    UpsertsUnique(t, data);
  }

  /**
   The prune, exactly: after a non-empty batch, a row survives precisely when
   it was in the upserted table and its id is a batch id (of any entry,
   skipped or not) or no row of the first entry's device carries its id.
   So a row of another device is removed only when its id is a pruned id.
   */
  lemma PruneExact(t: seq<Row>, data: seq<Row>, x: Row)
    requires data != []
    ensures x in Pull(t, data) <==>
      x in Upserts(t, data) && (x.id in Ids(data) || !Has(Upserts(t, data), data[0].device, x.id))
  {
    var u := Upserts(t, data);
    var r := Pull(t, data);
    assert multiset(r)[x] == if x.id in StaleIds(u, data[0].device, Ids(data)) then 0 else multiset(u)[x];
    assert x in r <==> multiset(r)[x] > 0;
    assert x in u <==> multiset(u)[x] > 0;
  }

  /**
   After a non-empty batch no row of the first entry's device carries an id
   outside the batch ids.
   */
  lemma PruneComplete(t: seq<Row>, data: seq<Row>, x: Row)
    requires data != []
    requires x in Pull(t, data) && x.device == data[0].device
    ensures x.id in Ids(data)
  {
    PruneExact(t, data, x);
    assert x in Upserts(t, data);
  }

  /**
   An entry's id protects rows from the prune: every row of the upserted
   table whose id is some batch entry's id, skipped entries included, is
   still there after pullData.
   */
  lemma PruneSpares(t: seq<Row>, data: seq<Row>, k: int, x: Row)
    requires 0 <= k < |data|
    requires x in Upserts(t, data) && x.id == data[k].id
    ensures x in Pull(t, data)
  {
    assert Ids(data)[k] == x.id;
    PruneExact(t, data, x);
  }

  /** After pullData, the key of every admissible entry is in the table. */
  lemma PullSurvival(t: seq<Row>, data: seq<Row>, k: int)
    requires 0 <= k < |data| && Admissible(data[k])
    ensures Has(Pull(t, data), data[k].device, data[k].id)
  {
    var u := Upserts(t, data);
    UpsertsKeys(t, data, data[k].device, data[k].id);
    var x :| x in u && x.device == data[k].device && x.id == data[k].id;
    PruneSpares(t, data, k, x);
  }

  /**
   With pairwise distinct batch ids, the upsert loop leaves every admissible
   entry in the table verbatim: later entries carry other ids and touch
   neither its row nor its key.
   */
  lemma {:induction false} UpsertsLand(t: seq<Row>, data: seq<Row>, k: int)
    requires IdsDistinct(data)
    requires 0 <= k < |data| && Admissible(data[k])
    ensures data[k] in Upserts(t, data)
    decreases |data|
  {
    var n := |data| - 1;
    var front := data[..n];
    var u := Upserts(t, front);
    var last := data[n];
    if k == n {
      if Has(u, last.device, last.id) {
        SetByIdHit(u, last.id, last.device, last.title, last.content);
      }
    } else {
      assert front[k] == data[k];
      assert IdsDistinct(front) by {
        forall i, j | 0 <= i < j < |front| ensures front[i].id != front[j].id {
          assert front[i] == data[i] && front[j] == data[j];
        }
      }
      UpsertsLand(t, front, k);
      assert last.id != data[k].id;
      if Admissible(last) && Has(u, last.device, last.id) {
        SetByIdMiss(u, last.id, last.title, last.content, data[k]);
      }
    }
  }

  /** With pairwise distinct batch ids, every admissible entry ends up in the table verbatim. */
  lemma PullLands(t: seq<Row>, data: seq<Row>, k: int)
    requires IdsDistinct(data)
    requires 0 <= k < |data| && Admissible(data[k])
    ensures data[k] in Pull(t, data)
  {
    UpsertsLand(t, data, k);
    PruneSpares(t, data, k, data[k]);
  }

  /**
   With pairwise distinct batch ids, the row of an admissible entry's key is
   that entry after one pullData and is still that entry after a second,
   identical pullData.
   */
  lemma RepeatPullKeepsBatchRows(t: seq<Row>, data: seq<Row>, k: int)
    requires KeysUnique(t)
    requires IdsDistinct(data)
    requires 0 <= k < |data| && Admissible(data[k])
    ensures forall x :: x in Pull(t, data) && KeyOf(x) == KeyOf(data[k]) ==> x == data[k]
    ensures forall x :: x in Pull(Pull(t, data), data) && KeyOf(x) == KeyOf(data[k]) ==> x == data[k]
  {
    var once := Pull(t, data);
    PullUnique(t, data);
    PullLands(t, data, k);
    PullUnique(once, data);
    PullLands(once, data, k);
    forall x | x in once && KeyOf(x) == KeyOf(data[k])
      ensures x == data[k]
    {
      UniqueKeyRow(once, x, data[k]);
    }
    forall x | x in Pull(once, data) && KeyOf(x) == KeyOf(data[k])
      ensures x == data[k]
    {
      UniqueKeyRow(Pull(once, data), x, data[k]);
    }
  }
}

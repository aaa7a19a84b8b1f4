/**
 The testTodos table of the to-do app as a sequence of rows, and the meaning of
 each SQL statement the app runs on it, written as functions on that sequence.
 The order of the sequence is the storage order; only the queries that say
 ORDER BY expose an order, and they sort.
 */
module TodoTable {

  /** One row of testTodos(id, device, title, content). */
  datatype Row = Row(id: int, device: string, title: string, content: string)

  /** The primary key of a row: the pair (id, device). */
  function KeyOf(x: Row): (int, string)
  {
    (x.id, x.device)
  }

  /** PRIMARY KEY (id, device): no two rows of the table share a key. */
  predicate KeysUnique(t: seq<Row>)
  {
    forall i, j :: 0 <= i < j < |t| ==> KeyOf(t[i]) != KeyOf(t[j])
  }

  /** A table with unique keys holds at most one row per key. */
  lemma UniqueKeyRow(t: seq<Row>, a: Row, b: Row)
    requires KeysUnique(t) && a in t && b in t && KeyOf(a) == KeyOf(b)
    ensures a == b
  {
    var i :| 0 <= i < |t| && t[i] == a;
    var j :| 0 <= j < |t| && t[j] == b;
  }

  /** Keys are unique in x :: s exactly when they are unique in s and x's key is not in s. */
  lemma UniqueCons(x: Row, s: seq<Row>)
    ensures KeysUnique([x] + s) <==> KeysUnique(s) && forall y :: y in s ==> KeyOf(y) != KeyOf(x)
  {
    var t := [x] + s;
    if KeysUnique(t) {
      forall i, j | 0 <= i < j < |s|
        ensures KeyOf(s[i]) != KeyOf(s[j])
      {
        assert s[i] == t[i + 1] && s[j] == t[j + 1];
      }
      forall y | y in s
        ensures KeyOf(y) != KeyOf(x)
      {
        var j :| 0 <= j < |s| && s[j] == y;
        assert t[0] == x && t[j + 1] == y;
      }
    }
    if KeysUnique(s) && forall y :: y in s ==> KeyOf(y) != KeyOf(x) {
      forall i, j | 0 <= i < j < |t|
        ensures KeyOf(t[i]) != KeyOf(t[j])
      {
        assert t[j] == s[j - 1];
        if 0 < i {
          assert t[i] == s[i - 1];
        }
      }
    }
  }

  /** Appending a row whose key is not in the table keeps keys unique. */
  lemma UniqueAppend(t: seq<Row>, x: Row)
    requires KeysUnique(t)
    requires forall y :: y in t ==> KeyOf(y) != KeyOf(x)
    ensures KeysUnique(t + [x])
  {
    var u := t + [x];
    forall i, j | 0 <= i < j < |u|
      ensures KeyOf(u[i]) != KeyOf(u[j])
    {
      assert u[i] == t[i];
      if j == |t| {
        assert u[i] in t;
      } else {
        assert u[j] == t[j];
      }
    }
  }

  /**
   SELECT * FROM testTodos WHERE device = ? AND id = ? is non-empty:
   a row of the table has this key.
   */
  function Has(t: seq<Row>, device: string, id: int): (b: bool)
    ensures b <==> exists x :: x in t && x.device == device && x.id == id
  {
    if t == [] then false
    else
      assert t == [t[0]] + t[1..];
      (t[0].device == device && t[0].id == id) || Has(t[1..], device, id)
  }

  /**
   The rows a WHERE clause selects, in storage order: a row occurs in the
   result as often as in the table when it satisfies the clause, and not at
   all otherwise.
   */
  function Where(t: seq<Row>, keep: Row -> bool): (r: seq<Row>)
    ensures forall x :: multiset(r)[x] == if keep(x) then multiset(t)[x] else 0
  {
    if t == [] then []
    else
      assert t == [t[0]] + t[1..];
      (if keep(t[0]) then [t[0]] else []) + Where(t[1..], keep)
  }

  /** A selection from a table with unique keys has unique keys. */
  lemma {:induction false} WhereUnique(t: seq<Row>, keep: Row -> bool)
    ensures KeysUnique(t) ==> KeysUnique(Where(t, keep))
  {
    if t != [] && KeysUnique(t) {
      assert t == [t[0]] + t[1..];
      UniqueCons(t[0], t[1..]);
      var rest := Where(t[1..], keep);
      WhereUnique(t[1..], keep);
      if keep(t[0]) {
        forall y | y in rest
          ensures KeyOf(y) != KeyOf(t[0])
        {
          assert multiset(rest)[y] > 0;
          assert y in multiset(t[1..]);
        }
        UniqueCons(t[0], rest);
      }
    }
  }

  /**
   UPDATE testTodos SET title = ?, content = ? WHERE id = ?: every row with
   that id, on every device, gets the new title and content; no key changes
   and no row is added, removed or moved.
   */
  function SetById(t: seq<Row>, id: int, title: string, content: string): (r: seq<Row>)
    ensures |r| == |t|
    ensures forall k :: 0 <= k < |t| ==> KeyOf(r[k]) == KeyOf(t[k])
    ensures forall k :: 0 <= k < |t| && t[k].id == id ==> r[k].title == title && r[k].content == content
    ensures forall k :: 0 <= k < |t| && t[k].id != id ==> r[k] == t[k]
  {
    if t == [] then []
    else
      [if t[0].id == id then t[0].(title := title, content := content) else t[0]]
      + SetById(t[1..], id, title, content)
  }

  /** The update keeps keys unique and keeps exactly the keys the table had. */
  lemma SetByIdKeys(t: seq<Row>, id: int, title: string, content: string, device: string, i: int)
    ensures KeysUnique(t) ==> KeysUnique(SetById(t, id, title, content))
    ensures Has(SetById(t, id, title, content), device, i) <==> Has(t, device, i)
  {
    var r := SetById(t, id, title, content);
    if Has(t, device, i) {
      var x :| x in t && x.device == device && x.id == i;
      var k :| 0 <= k < |t| && t[k] == x;
      assert r[k] in r;
    }
    if Has(r, device, i) {
      var x :| x in r && x.device == device && x.id == i;
      var k :| 0 <= k < |r| && r[k] == x;
      assert t[k] in t;
    }
  }

  /** After the update, the row with key (id, device), if there was one, holds the new title and content. */
  lemma SetByIdHit(t: seq<Row>, id: int, device: string, title: string, content: string)
    requires Has(t, device, id)
    ensures Row(id, device, title, content) in SetById(t, id, title, content)
  {
    var r := SetById(t, id, title, content);
    var x :| x in t && x.device == device && x.id == id;
    var k :| 0 <= k < |t| && t[k] == x;
    assert r[k] == Row(id, device, title, content);
  }

  /** After the update, every row with the updated id, on every device, holds the new title and content. */
  lemma SetByIdOverwritesAll(t: seq<Row>, id: int, title: string, content: string, x: Row)
    requires x in SetById(t, id, title, content) && x.id == id
    ensures x.title == title && x.content == content
  {
    var r := SetById(t, id, title, content);
    var k :| 0 <= k < |r| && r[k] == x;
    assert KeyOf(r[k]) == KeyOf(t[k]);
  }

  /** A row whose id differs from the updated id is still in the table. */
  lemma SetByIdMiss(t: seq<Row>, id: int, title: string, content: string, x: Row)
    requires x in t && x.id != id
    ensures x in SetById(t, id, title, content)
  {
    var k :| 0 <= k < |t| && t[k] == x;
    assert SetById(t, id, title, content)[k] == x;
  }

  /** DELETE FROM testTodos WHERE id = ?: every row with that id goes, on every device; the rest stays. */
  function DeleteById(t: seq<Row>, id: int): (r: seq<Row>)
    ensures forall x :: multiset(r)[x] == if x.id == id then 0 else multiset(t)[x]
    ensures KeysUnique(t) ==> KeysUnique(r)
  {
    var keep := (x: Row) => x.id != id;
    WhereUnique(t, keep);
    Where(t, keep)
  }

  /** One DELETE ... WHERE id = ? per id of ids, in order. */
  function DeleteIds(t: seq<Row>, ids: seq<int>): (r: seq<Row>)
    ensures forall x :: multiset(r)[x] == if x.id in ids then 0 else multiset(t)[x]
    ensures KeysUnique(t) ==> KeysUnique(r)
    decreases |ids|
  {
    if ids == [] then t
    else
      var last := ids[|ids| - 1];
      assert ids == ids[..|ids| - 1] + [last];
      DeleteById(DeleteIds(t, ids[..|ids| - 1]), last)
  }

  /** Deleting the first k + 1 ids is deleting the first k, then the next one. */
  lemma DeleteIdsPrefix(t: seq<Row>, ids: seq<int>, k: nat)
    requires k < |ids|
    ensures DeleteIds(t, ids[..k + 1]) == DeleteById(DeleteIds(t, ids[..k]), ids[k])
  {
    assert ids[..k + 1][..k] == ids[..k];
  }

  /** WHERE device = ?: the rows of one device. */
  function OfDevice(t: seq<Row>, device: string): (r: seq<Row>)
    ensures forall x :: multiset(r)[x] == if x.device == device then multiset(t)[x] else 0
  {
    Where(t, (x: Row) => x.device == device)
  }

  /** ORDER BY id DESC holds of s. */
  predicate SortedByIdDesc(s: seq<Row>)
  {
    forall i, j :: 0 <= i < j < |s| ==> s[i].id >= s[j].id
  }

  /** Place x in front of the first row of s whose id is not larger than x's. */
  function InsertByIdDesc(x: Row, s: seq<Row>): seq<Row>
  {
    if s == [] || x.id >= s[0].id then [x] + s
    else [s[0]] + InsertByIdDesc(x, s[1..])
  }

  /** ORDER BY id DESC as an insertion sort; rows with equal ids keep no promised order. */
  function SortByIdDesc(t: seq<Row>): seq<Row>
  {
    if t == [] then [] else InsertByIdDesc(t[0], SortByIdDesc(t[1..]))
  }

  /** Inserting adds exactly x. */
  lemma {:induction false} InsertByIdDescPerm(x: Row, s: seq<Row>)
    ensures multiset(InsertByIdDesc(x, s)) == multiset(s) + multiset{x}
  {
    if !(s == [] || x.id >= s[0].id) {
      assert s == [s[0]] + s[1..];
      InsertByIdDescPerm(x, s[1..]);
    }
  }

  /** A row whose id bounds every id of a sorted sequence may lead it. */
  lemma SortedCons(x: Row, s: seq<Row>)
    requires SortedByIdDesc(s)
    requires forall y :: y in s ==> y.id <= x.id
    ensures SortedByIdDesc([x] + s)
  {
    var r := [x] + s;
    forall i, j | 0 <= i < j < |r|
      ensures r[i].id >= r[j].id
    {
      assert r[j] == s[j - 1] && r[j] in s;
      if 0 < i {
        assert r[i] == s[i - 1];
      }
    }
  }

  /** Inserting into a sequence sorted by id descending keeps it sorted. */
  lemma {:induction false} InsertByIdDescSorted(x: Row, s: seq<Row>)
    requires SortedByIdDesc(s)
    ensures SortedByIdDesc(InsertByIdDesc(x, s))
  {
    if s == [] || x.id >= s[0].id {
      forall y | y in s
        ensures y.id <= x.id
      {
        var m :| 0 <= m < |s| && s[m] == y;
        assert s[0].id >= s[m].id;
      }
      SortedCons(x, s);
    } else {
      var tail := s[1..];
      var rest := InsertByIdDesc(x, tail);
      assert SortedByIdDesc(tail) by {
        forall i, j | 0 <= i < j < |tail| ensures tail[i].id >= tail[j].id {
          assert tail[i] == s[i + 1] && tail[j] == s[j + 1];
        }
      }
      InsertByIdDescSorted(x, tail);
      InsertByIdDescPerm(x, tail);
      forall y | y in rest
        ensures y.id <= s[0].id
      {
        assert y in multiset(rest);
        if y != x {
          assert y in multiset(tail);
          var m :| 0 <= m < |tail| && tail[m] == y;
          assert s[m + 1] == y;
        }
      }
      SortedCons(s[0], rest);
    }
  }

  /** The sort returns a permutation of its input, ordered by id descending. */
  lemma {:induction false} SortByIdDescCorrect(t: seq<Row>)
    ensures SortedByIdDesc(SortByIdDesc(t))
    ensures multiset(SortByIdDesc(t)) == multiset(t)
  {
    if t != [] {
      assert t == [t[0]] + t[1..];
      SortByIdDescCorrect(t[1..]);
      InsertByIdDescSorted(t[0], SortByIdDesc(t[1..]));
      InsertByIdDescPerm(t[0], SortByIdDesc(t[1..]));
    }
  }
}

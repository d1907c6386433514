/** The `posts` and `comments` tables the services read and write, as an in-memory table of
    rows keyed by a serial id. Each row carries the id of the user who owns it (`user_id`). */
module Tables {

  import opened Base

  /** A row: its serial id, its owner's `user_id`, and the rest of its columns. */
  datatype Entry<T> = Entry(id: int, owner: int, data: T)

  /** The position of the row with that id, or -1. */
  function IndexOf<T>(rows: seq<Entry<T>>, id: int): (k: int)
    ensures -1 <= k < |rows|
    ensures k >= 0 ==> rows[k].id == id
    ensures k < 0 <==> forall j :: 0 <= j < |rows| ==> rows[j].id != id
  {
    if |rows| == 0 then -1
    else if rows[|rows| - 1].id == id then |rows| - 1
    else IndexOf(rows[..|rows| - 1], id)
  }

  /** `SELECT ... WHERE id = $1`: the row with that id, if any. */
  function Lookup<T>(rows: seq<Entry<T>>, id: int): (r: Option<Entry<T>>)
    ensures r.Some? ==> r.value.id == id && exists k :: 0 <= k < |rows| && rows[k] == r.value
    ensures r.None? <==> forall j :: 0 <= j < |rows| ==> rows[j].id != id
  {
    var k := IndexOf(rows, id);
    if k < 0 then None else Some(rows[k])
  }

  /** Ids are unique. */
  ghost predicate UniqueIds<T>(rows: seq<Entry<T>>)
  {
    forall i, j :: 0 <= i < j < |rows| ==> rows[i].id != rows[j].id
  }

  /** With unique ids, the row found is the one at any position holding that id. */
  lemma LookupUnique<T>(rows: seq<Entry<T>>, k: int)
    requires UniqueIds(rows) && 0 <= k < |rows|
    ensures Lookup(rows, rows[k].id) == Some(rows[k])
  {
    var i := IndexOf(rows, rows[k].id);
    assert i == k;
  }

  /** `UPDATE ... SET ... WHERE id = $n`: the data of the row with that id replaced. */
  function SetData<T>(rows: seq<Entry<T>>, id: int, data: T): (r: seq<Entry<T>>)
    ensures |r| == |rows|
    ensures forall k :: 0 <= k < |rows| ==> r[k].id == rows[k].id && r[k].owner == rows[k].owner
  {
    seq(|rows|, k requires 0 <= k < |rows| => if rows[k].id == id then rows[k].(data := data) else rows[k])
  }

  /** After an update the row reads back with the new data and the same owner, and every
      other id reads back as before. */
  lemma SetDataLookup<T>(rows: seq<Entry<T>>, id: int, data: T, other: int)
    requires UniqueIds(rows)
    ensures UniqueIds(SetData(rows, id, data))
    ensures Lookup(rows, id).Some? ==>
      Lookup(SetData(rows, id, data), id) == Some(Lookup(rows, id).value.(data := data))
    ensures Lookup(rows, id).None? ==> SetData(rows, id, data) == rows
    ensures other != id ==> Lookup(SetData(rows, id, data), other) == Lookup(rows, other)
  {
    var r := SetData(rows, id, data);
    var k := IndexOf(rows, id);
    if k >= 0 {
      LookupUnique(r, k);
    } else {
      assert r == rows;
    }
    var o := IndexOf(rows, other);
    if other != id {
      if o >= 0 {
        assert r[o] == rows[o];
        LookupUnique(r, o);
        LookupUnique(rows, o);
      } else {
        assert forall j :: 0 <= j < |r| ==> r[j].id != other;
      }
    }
  }

  /** `DELETE ... WHERE id = $1`: every row with that id dropped, the others kept in order. */
  function Without<T>(rows: seq<Entry<T>>, id: int): (r: seq<Entry<T>>)
    ensures |r| <= |rows|
  {
    if |rows| == 0 then []
    else Without(rows[..|rows| - 1], id) + (if rows[|rows| - 1].id == id then [] else [rows[|rows| - 1]])
  }

  /** After a delete the id is gone, every other row reads back as before, and a delete of an
      absent id changes nothing. */
  lemma WithoutLookup<T>(rows: seq<Entry<T>>, id: int, other: int)
    requires UniqueIds(rows)
    ensures UniqueIds(Without(rows, id))
    ensures Lookup(Without(rows, id), id).None?
    ensures other != id ==> Lookup(Without(rows, id), other) == Lookup(rows, other)
    ensures Lookup(rows, id).None? ==> Without(rows, id) == rows
  {
    var w := Without(rows, id);
    WithoutUnique(rows, id);
    WithoutIds(rows, id);
    assert forall j :: 0 <= j < |w| ==> w[j].id in IdsOf(rows) - {id};
    if other != id {
      var k := IndexOf(rows, other);
      if k >= 0 {
        WithoutKeeps(rows, id, k);
        var j :| 0 <= j < |w| && w[j] == rows[k];
        LookupUnique(w, j);
        LookupUnique(rows, k);
      } else {
        assert forall j :: 0 <= j < |w| ==> w[j].id != other;
      }
    }
    if Lookup(rows, id).None? {
      WithoutAbsent(rows, id);
    }
  }

  /** Deleting keeps the ids unique. */
  lemma {:induction false} WithoutUnique<T>(rows: seq<Entry<T>>, id: int)
    requires UniqueIds(rows)
    ensures UniqueIds(Without(rows, id))
    decreases |rows|
  {
    if |rows| > 0 {
      var init := rows[..|rows| - 1];
      var last := rows[|rows| - 1];
      WithoutUnique(init, id);
      WithoutIds(init, id);
      var w := Without(init, id);
      if last.id != id {
        assert Without(rows, id) == w + [last];
        assert last.id !in IdsOf(init) by {
          forall k | 0 <= k < |init| ensures init[k].id != last.id {
            assert rows[k].id != rows[|rows| - 1].id;
          }
        }
        forall j | 0 <= j < |w| ensures w[j].id != last.id {
          assert w[j].id in IdsOf(w);
        }
      }
    }
  }

  /** Every row with another id survives a delete. */
  lemma {:induction false} WithoutKeeps<T>(rows: seq<Entry<T>>, id: int, k: int)
    requires 0 <= k < |rows| && rows[k].id != id
    ensures exists j :: 0 <= j < |Without(rows, id)| && Without(rows, id)[j] == rows[k]
    decreases |rows|
  {
    var init := rows[..|rows| - 1];
    var w := Without(init, id);
    if k == |rows| - 1 {
      assert Without(rows, id) == w + [rows[k]];
      assert Without(rows, id)[|w|] == rows[k];
    } else {
      assert init[k] == rows[k];
      WithoutKeeps(init, id, k);
      var j :| 0 <= j < |w| && w[j] == rows[k];
      assert Without(rows, id)[j] == w[j];
    }
  }

  /** Deleting an absent id changes nothing. */
  lemma {:induction false} WithoutAbsent<T>(rows: seq<Entry<T>>, id: int)
    requires forall j :: 0 <= j < |rows| ==> rows[j].id != id
    ensures Without(rows, id) == rows
    decreases |rows|
  {
    if |rows| > 0 {
      var init := rows[..|rows| - 1];
      WithoutAbsent(init, id);
      assert rows == init + [rows[|rows| - 1]];
    }
  }

  /** Deleting a row just inserted under a fresh id restores the table. */
  lemma WithoutAppended<T>(rows: seq<Entry<T>>, e: Entry<T>)
    requires forall j :: 0 <= j < |rows| ==> rows[j].id != e.id
    ensures Without(rows + [e], e.id) == rows
  {
    assert (rows + [e])[..|rows|] == rows;
    WithoutAbsent(rows, e.id);
  }

  /** The ids of the rows. */
  function IdsOf<T>(rows: seq<Entry<T>>): (ids: set<int>)
    ensures forall k :: 0 <= k < |rows| ==> rows[k].id in ids
    ensures forall x :: x in ids ==> exists k :: 0 <= k < |rows| && rows[k].id == x
  {
    set k | 0 <= k < |rows| :: rows[k].id
  }

  /** Deleting never brings in a new id. */
  lemma {:induction false} WithoutIds<T>(rows: seq<Entry<T>>, id: int)
    ensures IdsOf(Without(rows, id)) <= IdsOf(rows) - {id}
    decreases |rows|
  {
    if |rows| > 0 {
      var init := rows[..|rows| - 1];
      WithoutIds(init, id);
      forall x | x in IdsOf(init) ensures x in IdsOf(rows) {
        var k :| 0 <= k < |init| && init[k].id == x;
        assert rows[k].id == x;
      }
    }
  }

  /** A table of rows with a serial id counter. */
  class Table<T> {
    var rows: seq<Entry<T>>
    var nextId: int

    ghost predicate Valid()
      reads this
    {
      UniqueIds(rows) && forall k :: 0 <= k < |rows| ==> rows[k].id < nextId
    }

    constructor ()
      ensures Valid() && rows == [] && nextId == 1
    {
      rows := [];
      nextId := 1;
    }

    /** The row with that id, if any. */
    function Find(id: int): (r: Option<Entry<T>>)
      reads this
      ensures r == Lookup(rows, id)
    {
      Lookup(rows, id)
    }

    /** `INSERT ... RETURNING`: a new row with the next serial id, appended. */
    method Insert(owner: int, data: T) returns (e: Entry<T>)
      requires Valid()
      modifies this
      ensures Valid()
      ensures e == Entry(old(nextId), owner, data) && old(Find(e.id)).None?
      ensures rows == old(rows) + [e] && nextId == old(nextId) + 1
    {
      e := Entry(nextId, owner, data);
      assert forall k :: 0 <= k < |rows| ==> rows[k].id != e.id;
      rows := rows + [e];
      nextId := nextId + 1;
    }

    /** `UPDATE ... RETURNING`: the updated row, or `None` (`rows[0]` of an empty result). */
    method Update(id: int, data: T) returns (r: Option<Entry<T>>)
      requires Valid()
      modifies this
      ensures Valid() && nextId == old(nextId)
      ensures rows == SetData(old(rows), id, data)
      ensures r == (if old(Find(id)).Some? then Some(old(Find(id)).value.(data := data)) else None)
    {
      SetDataLookup(rows, id, data, id);
      rows := SetData(rows, id, data);
      r := Find(id);
    }

    /** `DELETE ... WHERE id = $1`. */
    method Remove(id: int)
      requires Valid()
      modifies this
      ensures Valid() && nextId == old(nextId)
      ensures rows == Without(old(rows), id)
    {
      WithoutLookup(rows, id, id);
      WithoutIds(rows, id);
      var w := Without(rows, id);
      forall k | 0 <= k < |w| ensures w[k].id < nextId {
        assert w[k].id in IdsOf(rows);
      }
      rows := w;
    }
  }
}

/**
 * The `departments` table, `(id INTEGER PRIMARY KEY, name TEXT, location TEXT)`,
 * as the sequence of its rows in storage order, and the meaning of each SQL
 * statement the record store issues against it.
 */
module Table {
  import opened Wrappers

  /** One row as `fetchone` and `fetchall` return it: `(id, name, location)`. */
  datatype Row = Row(id: int, name: string, location: string)

  /** The filter of a `SELECT * FROM departments WHERE ...`. */
  datatype Where = IdEquals(id: int) | NameIs(name: string)

  predicate Holds(w: Where, row: Row) {
    match w
    case IdEquals(id) => row.id == id
    case NameIs(name) => row.name == name
  }

  /** The PRIMARY KEY constraint: no two rows share an id. */
  ghost predicate KeysUnique(rows: seq<Row>) {
    forall i, j :: 0 <= i < j < |rows| ==> rows[i].id != rows[j].id
  }

  /** The ids in use. */
  ghost function Keys(rows: seq<Row>): set<int> {
    set row | row in rows :: row.id
  }

  /**
   * `SELECT * FROM departments WHERE w` followed by `fetchone()`: a row the
   * filter holds of, or `None` when there is none.
   */
  function FetchOne(rows: seq<Row>, w: Where): (r: Option<Row>)
    ensures r.None? <==> forall i :: 0 <= i < |rows| ==> !Holds(w, rows[i])
    ensures r.Some? ==> r.value in rows && Holds(w, r.value)
  {
    if rows == [] then None
    else if Holds(w, rows[0]) then Some(rows[0])
    else
      var r := FetchOne(rows[1..], w);
      assert forall i :: 1 <= i < |rows| ==> rows[i] == rows[1..][i - 1];
      r
  }

  /** Under the primary key, selecting by a row's id fetches exactly that row. */
  lemma FetchOneById(rows: seq<Row>, i: int)
    requires KeysUnique(rows)
    requires 0 <= i < |rows|
    ensures FetchOne(rows, IdEquals(rows[i].id)) == Some(rows[i])
  {
  }

  /**
   * The rowid the engine gives the next INSERT: one more than the largest id
   * in use (1 for an empty table), hence fresh and positive.
   */
  function NextRowId(rows: seq<Row>): (k: int)
    ensures k > 0
    ensures forall i :: 0 <= i < |rows| ==> rows[i].id < k
  {
    if rows == [] then 1
    else
      var k := NextRowId(rows[1..]);
      assert forall i :: 1 <= i < |rows| ==> rows[i] == rows[1..][i - 1];
      if rows[0].id < k then k else rows[0].id + 1
  }

  /**
   * `INSERT INTO departments (name, location) VALUES (?, ?)`: the new rows and
   * the key the engine chose, which `lastrowid` reports.
   */
  function Insert(rows: seq<Row>, name: string, location: string): (r: (seq<Row>, int))
    ensures r.1 > 0 && r.1 !in Keys(rows)
    ensures r.0 == rows + [Row(r.1, name, location)]
    ensures Keys(r.0) == Keys(rows) + {r.1}
    ensures KeysUnique(rows) ==> KeysUnique(r.0)
  {
    var k := NextRowId(rows);
    var rows' := rows + [Row(k, name, location)];
    assert rows'[|rows|].id == k;
    (rows', k)
  }

  /**
   * `UPDATE departments SET name = ?, location = ? WHERE id = ?`: every row
   * with that id gets the new columns, every other row stays as it is.
   */
  function UpdateWhereId(rows: seq<Row>, id: int, name: string, location: string): (r: seq<Row>)
    ensures |r| == |rows|
    ensures forall i :: 0 <= i < |rows| ==>
      r[i] == if rows[i].id == id then Row(id, name, location) else rows[i]
  {
    if rows == [] then []
    else
      var head := if rows[0].id == id then Row(id, name, location) else rows[0];
      var tail := UpdateWhereId(rows[1..], id, name, location);
      assert forall i :: 1 <= i < |rows| ==> rows[i] == rows[1..][i - 1] && ([head] + tail)[i] == tail[i - 1];
      [head] + tail
  }

  /**
   * An UPDATE keeps the ids, hence the primary key; on an id not in use it
   * changes nothing.
   */
  lemma UpdateKeepsKeys(rows: seq<Row>, id: int, name: string, location: string)
    ensures Keys(UpdateWhereId(rows, id, name, location)) == Keys(rows)
    ensures KeysUnique(rows) ==> KeysUnique(UpdateWhereId(rows, id, name, location))
    ensures id !in Keys(rows) ==> UpdateWhereId(rows, id, name, location) == rows
  {
  }

  /** After an UPDATE of an existing id, selecting that id fetches the new columns. */
  lemma UpdatedRowIsFetched(rows: seq<Row>, id: int, name: string, location: string)
    requires KeysUnique(rows)
    requires id in Keys(rows)
    ensures FetchOne(UpdateWhereId(rows, id, name, location), IdEquals(id)) == Some(Row(id, name, location))
  {
  }

  /**
   * `DELETE FROM departments WHERE id = ?`: the rows with that id go, the
   * others stay.
   */
  function DeleteWhereId(rows: seq<Row>, id: int): (r: seq<Row>)
    ensures forall row :: row in r <==> row in rows && row.id != id
  {
    if rows == [] then []
    else
      var rest := DeleteWhereId(rows[1..], id);
      assert rows == [rows[0]] + rows[1..];
      if rows[0].id == id then rest else [rows[0]] + rest
  }

  /** Dropping the first row keeps the primary key, and its id is not used again. */
  lemma UniqueTail(rows: seq<Row>)
    requires KeysUnique(rows) && rows != []
    ensures KeysUnique(rows[1..]) && rows[0].id !in Keys(rows[1..])
  {
  }

  /** Prepending a row whose id is not in use keeps the primary key. */
  lemma UniqueCons(x: Row, rows: seq<Row>)
    requires KeysUnique(rows) && x.id !in Keys(rows)
    ensures KeysUnique([x] + rows)
  {
  }

  /**
   * A DELETE removes its id from use, keeps the primary key, and under the
   * primary key removes exactly one row when the id was in use and none
   * otherwise.
   */
  lemma {:induction false} DeleteKeepsKeys(rows: seq<Row>, id: int)
    requires KeysUnique(rows)
    ensures Keys(DeleteWhereId(rows, id)) == Keys(rows) - {id}
    ensures KeysUnique(DeleteWhereId(rows, id))
    ensures |DeleteWhereId(rows, id)| == if id in Keys(rows) then |rows| - 1 else |rows|
  {
    if rows != [] {
      UniqueTail(rows);
      DeleteKeepsKeys(rows[1..], id);
      var rest := DeleteWhereId(rows[1..], id);
      assert rows == [rows[0]] + rows[1..];
      assert Keys(rows) == {rows[0].id} + Keys(rows[1..]);
      if rows[0].id != id {
        UniqueCons(rows[0], rest);
        assert Keys([rows[0]] + rest) == {rows[0].id} + Keys(rest);
      }
    }
  }
}

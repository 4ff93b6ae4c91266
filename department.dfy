/**
 * The `Department` active record: instances with a mutable id, name and
 * location, and the class-level state they share, namely the backing table
 * and the identity map `Department.all` from primary key to live instance.
 */
module Departments {
  import opened Wrappers
  import opened Table

  /** One department; `id` stays `None` until the instance is persisted. */
  class Department {
    var id: Option<int>
    var name: string
    var location: string

    constructor (name: string, location: string, id: Option<int> := None)
      ensures this.id == id && this.name == name && this.location == location
    {
      this.id := id;
      this.name := name;
      this.location := location;
    }
  }

  /** How `delete` ends: normally, or with the `KeyError` of `del all[id]`. */
  datatype DeleteOutcome = Deleted | KeyError(key: Option<int>)

  /**
   * The class-level state of `Department`: the rows of `departments` and the
   * identity map `all`. The connection and cursor are not modelled; every
   * statement acts on `table` directly and commits at once.
   */
  class Store {
    var table: seq<Row>
    var all: map<int, Department>
    /** Every instance the identity map has held: the objects `Valid` reads. */
    ghost var Repr: set<Department>

    /**
     * The primary key holds, and every cached instance carries the id it is
     * cached under.
     */
    ghost predicate Valid()
      reads this, Repr
    {
      && KeysUnique(table)
      && forall k :: k in all ==> all[k] in Repr && all[k].id == Some(k)
    }

    /** Every cached id still has its row. */
    ghost predicate CacheBacked()
      reads this
    {
      all.Keys <= Keys(table)
    }

    /** A freshly created, empty table and an empty identity map. */
    constructor ()
      ensures Valid() && CacheBacked()
      ensures table == [] && all == map[] && Repr == {}
    {
      table := [];
      all := map[];
      Repr := {};
    }

    /**
     * `save`: inserts the instance's columns under a fresh key, stores the key
     * in `d.id` and caches `d` under it. The identity map stays consistent
     * exactly when `d` was not already cached under another key: saving a
     * cached instance a second time leaves a stale entry behind.
     */
    method Save(d: Department)
      requires Valid()
      modifies this`table, this`all, this`Repr, d`id
      ensures d.id.Some? && d.id.value > 0 && d.id.value !in Keys(old(table))
      ensures table == old(table) + [Row(d.id.value, d.name, d.location)]
      ensures all == old(all)[d.id.value := d] && Repr == old(Repr) + {d}
      ensures Valid() <==> forall k :: k in old(all) && old(all)[k] == d ==> Some(k) == d.id
      ensures old(CacheBacked()) ==> CacheBacked()
    {
      var (rows, rowid) := Insert(table, d.name, d.location);
      table := rows;
      d.id := Some(rowid);
      all := all[rowid := d];
      Repr := Repr + {d};
    }

    /** `create`: a new transient instance with the given columns, saved. */
    method Create(name: string, location: string) returns (d: Department)
      requires Valid()
      modifies this`table, this`all, this`Repr
      ensures fresh(d) && d.name == name && d.location == location
      ensures d.id.Some? && d.id.value > 0 && d.id.value !in Keys(old(table))
      ensures table == old(table) + [Row(d.id.value, name, location)]
      ensures all == old(all)[d.id.value := d] && Repr == old(Repr) + {d}
      ensures Valid()
      ensures old(CacheBacked()) ==> CacheBacked()
    {
      d := new Department(name, location);
      Save(d);
    }

    /**
     * `update`: writes the instance's columns into the row with its id. With
     * no such row, or no id at all (`WHERE id = NULL` matches nothing), the
     * table stays as it was and no error is raised.
     */
    method Update(d: Department)
      requires Valid()
      modifies this`table
      ensures table == if d.id.Some? then UpdateWhereId(old(table), d.id.value, d.name, d.location) else old(table)
      ensures Valid()
      ensures old(CacheBacked()) ==> CacheBacked()
    {
      if d.id.Some? {
        UpdateKeepsKeys(table, d.id.value, d.name, d.location);
        table := UpdateWhereId(table, d.id.value, d.name, d.location);
      }
    }

    /**
     * `delete`: removes the row with the instance's id, then the cache entry
     * under that id, then clears `d.id`. When the id is not a cache key,
     * `del` raises `KeyError` after the row is already gone, and `d.id` is
     * left as it was.
     */
    method Delete(d: Department) returns (outcome: DeleteOutcome)
      requires Valid()
      modifies this`table, this`all, d`id
      ensures table == if old(d.id).Some? then DeleteWhereId(old(table), old(d.id).value) else old(table)
      ensures outcome == Deleted <==> old(d.id).Some? && old(d.id).value in old(all)
      ensures outcome == Deleted ==> all == old(all) - {old(d.id).value} && d.id == None
      ensures outcome != Deleted ==> outcome == KeyError(old(d.id)) && all == old(all) && d.id == old(d.id)
      ensures Valid()
      ensures old(CacheBacked()) ==> CacheBacked()
    {
      if d.id.Some? {
        DeleteKeepsKeys(table, d.id.value);
        table := DeleteWhereId(table, d.id.value);
      }
      if d.id.Some? && d.id.value in all {
        all := all - {d.id.value};
        d.id := None;
        outcome := Deleted;
      } else {
        outcome := KeyError(d.id);
      }
    }

    /**
     * `instance_from_db`: the instance for a fetched row. An instance already
     * cached under the row's id is reused, with its name and location
     * overwritten; otherwise a new instance is built and cached. No other
     * instance is touched; the last two postconditions say so in the two
     * forms `get_all` needs.
     */
    method InstanceFromDb(row: Row) returns (d: Department)
      requires Valid()
      modifies this`all, this`Repr, if row.id in all then {all[row.id]} else {}
      ensures d.id == Some(row.id) && d.name == row.name && d.location == row.location
      ensures row.id in old(all) ==> d == old(all)[row.id]
      ensures row.id !in old(all) ==> fresh(d)
      ensures all == old(all)[row.id := d] && Repr == old(Repr) + {d}
      ensures forall k :: k in old(all) && k != row.id ==> unchanged(old(all)[k])
      ensures forall o :: o in old(Repr) && (row.id in old(all) ==> o != old(all)[row.id]) ==> unchanged(o)
      ensures Valid()
      ensures old(CacheBacked()) && row.id in Keys(table) ==> CacheBacked()
    {
      if row.id in all {
        d := all[row.id];
        d.name := row.name;
        d.location := row.location;
      } else {
        d := new Department(row.name, row.location);
        d.id := Some(row.id);
        all := all[row.id := d];
        Repr := Repr + {d};
      }
    }

    /**
     * `get_all`: one instance per row, in the order the rows are fetched.
     * Afterwards every id in the table is cached, the instances hold their
     * rows' columns, instances cached before keep their identity, new ones
     * are fresh, and the result holds no instance twice. An instance that
     * was not in the identity map (a deleted one, say) is left untouched.
     */
    method GetAll() returns (ds: seq<Department>)
      requires Valid()
      modifies this`all, this`Repr, Repr
      ensures |ds| == |table|
      ensures forall i :: 0 <= i < |ds| ==> table[i].id in all && all[table[i].id] == ds[i]
      ensures forall i :: 0 <= i < |ds| ==>
        ds[i].id == Some(table[i].id) && ds[i].name == table[i].name && ds[i].location == table[i].location
      ensures forall i, j :: 0 <= i < j < |ds| ==> ds[i] != ds[j]
      ensures forall k :: k in old(all) ==> k in all && all[k] == old(all)[k]
      ensures forall o :: o in old(Repr) && o !in old(all).Values ==> unchanged(o)
      ensures fresh(Repr - old(Repr))
      ensures Valid()
      ensures old(CacheBacked()) ==> CacheBacked()
    {
      var rows := table;
      ds := [];
      for i := 0 to |rows|
        invariant Valid() && table == rows
        invariant |ds| == i
        invariant forall j :: 0 <= j < i ==> rows[j].id in all && all[rows[j].id] == ds[j]
        invariant forall j :: 0 <= j < i ==> ds[j].name == rows[j].name && ds[j].location == rows[j].location
        invariant forall k :: k in old(all) ==> k in all && all[k] == old(all)[k]
        invariant fresh(Repr - old(Repr))
        invariant old(CacheBacked()) ==> CacheBacked()
        invariant old(Repr) <= Repr
        invariant forall o :: o in old(Repr) && o !in old(all).Values ==> unchanged(o)
        invariant forall j :: i <= j < |rows| ==> (rows[j].id in all <==> rows[j].id in old(all))
      {
        assert rows[i] in rows;
        assert forall j :: 0 <= j < i ==> rows[j].id != rows[i].id;
        var d := InstanceFromDb(rows[i]);
        ds := ds + [d];
      }
    }

    /**
     * `find_by_id`: `None` exactly when no row has the id; otherwise the
     * instance cached under the id, now holding that row's columns.
     */
    method FindById(id: int) returns (r: Option<Department>)
      requires Valid()
      modifies this`all, this`Repr, if id in all then {all[id]} else {}
      ensures r.None? <==> id !in Keys(table)
      ensures r.None? ==> all == old(all) && (id in old(all) ==> unchanged(old(all)[id]))
      ensures r.Some? ==> r.value.id == Some(id) && FetchOne(table, IdEquals(id)) == Some(Row(id, r.value.name, r.value.location))
      ensures r.Some? && id in old(all) ==> r.value == old(all)[id] && all == old(all)
      ensures r.Some? && id !in old(all) ==> fresh(r.value) && all == old(all)[id := r.value]
      ensures fresh(Repr - old(Repr))
      ensures Valid()
      ensures old(CacheBacked()) ==> CacheBacked()
    {
      var row := FetchOne(table, IdEquals(id));
      if row.Some? {
        var d := InstanceFromDb(row.value);
        r := Some(d);
      } else {
        r := None;
      }
    }

    /**
     * `find_by_name`: `None` exactly when no row has the name; otherwise the
     * cached instance for one row with that name, now holding its columns.
     * Which row, when several share the name, is left to the engine.
     */
    method FindByName(name: string) returns (r: Option<Department>)
      requires Valid()
      modifies this`all, this`Repr, all.Values
      ensures r.None? <==> forall i :: 0 <= i < |table| ==> table[i].name != name
      ensures r.None? ==> all == old(all)
      ensures r.Some? ==> r.value.id.Some? && r.value.name == name && Row(r.value.id.value, name, r.value.location) in table
      ensures r.Some? && r.value.id.value in old(all) ==> r.value == old(all)[r.value.id.value] && all == old(all)
      ensures r.Some? && r.value.id.value !in old(all) ==> fresh(r.value) && all == old(all)[r.value.id.value := r.value]
      ensures forall o :: o in old(all.Values) && (r.None? || o != r.value) ==> unchanged(o)
      ensures fresh(Repr - old(Repr))
      ensures Valid()
      ensures old(CacheBacked()) ==> CacheBacked()
    {
      var row := FetchOne(table, NameIs(name));
      if row.Some? {
        var d := InstanceFromDb(row.value);
        r := Some(d);
      } else {
        r := None;
      }
    }
  }
  /**
   * The identity map seen from a client on a fresh table: looking a created
   * department up by its key yields the very instance `create` returned,
   * deleting it clears its id, and afterwards the key finds nothing.
   */
  method Lifecycle(name: string, location: string)
    returns (d: Department, found: Option<Department>, outcome: DeleteOutcome, gone: Option<Department>)
    ensures found == Some(d) && d.name == name && d.location == location
    ensures outcome == Deleted && d.id == None
    ensures gone == None
  {
    var store := new Store();
    d := store.Create(name, location);
    var key := d.id.value;
    assert store.table[0].id == key;
    found := store.FindById(key);
    outcome := store.Delete(d);
    gone := store.FindById(key);
  }

  /**
   * Two departments on a fresh table: `get_all` lists the very instances
   * `create` returned, in insertion order.
   */
  method ListTwo() returns (eng: Department, sales: Department, listed: seq<Department>)
    ensures listed == [eng, sales]
  {
    var store := new Store();
    eng := store.Create("Engineering", "Building A");
    sales := store.Create("Sales", "Building B");
    var rows := store.table;
    assert rows == [Row(eng.id.value, "Engineering", "Building A"), Row(sales.id.value, "Sales", "Building B")];
    listed := store.GetAll();
    assert store.table == rows;
    assert listed[0] == eng && listed[1] == sales;
  }

  /**
   * Two departments on a fresh table: `find_by_name` yields the very
   * instance `create` returned under that name, and a name no row has
   * yields `None`.
   */
  method FindTwoByName() returns (eng: Department, sales: Department, byName: Option<Department>,
                                  missing: Option<Department>)
    ensures byName == Some(sales)
    ensures missing == None
  {
    var store := new Store();
    eng := store.Create("Engineering", "Building A");
    sales := store.Create("Sales", "Building B");
    var key := sales.id.value;
    var rows := store.table;
    assert rows == [Row(eng.id.value, "Engineering", "Building A"), Row(key, "Sales", "Building B")];
    byName := store.FindByName("Sales");
    assert store.table == rows;
    assert byName.value.id == Some(key);
    missing := store.FindByName("Marketing");
    assert store.table == rows;
  }

  /**
   * Deleting one of two departments: the delete ends normally, and a later
   * `get_all` lists only the other instance.
   */
  method DeleteOfTwo() returns (eng: Department, sales: Department, outcome: DeleteOutcome, after: seq<Department>)
    ensures outcome == Deleted
    ensures after == [eng]
  {
    var store := new Store();
    eng := store.Create("Engineering", "Building A");
    sales := store.Create("Sales", "Building B");
    var key := sales.id.value;
    var rows := store.table;
    assert rows == [Row(eng.id.value, "Engineering", "Building A"), Row(key, "Sales", "Building B")];
    outcome := store.Delete(sales);
    DeleteKeepsKeys(rows, key);
    assert rows[0] in store.table;
    assert store.table == [rows[0]] && store.Repr == {eng, sales};
    after := store.GetAll();
    assert store.table == [rows[0]];
  }

  /**
   * Deleting the only department: a later `get_all` lists nothing and leaves
   * the deleted instance's id cleared.
   */
  method DeleteThenList(name: string, location: string) returns (d: Department, outcome: DeleteOutcome, after: seq<Department>)
    ensures outcome == Deleted && d.id == None
    ensures after == []
  {
    var store := new Store();
    d := store.Create(name, location);
    var key := d.id.value;
    outcome := store.Delete(d);
    DeleteKeepsKeys([Row(key, name, location)], key);
    after := store.GetAll();
  }
}

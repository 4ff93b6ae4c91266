# Department active record

This project models the `Department` active record of `lib/department.py`.

A `Department` is a mutable object with an `id`, a `name` and a `location`, persisted as one row of the SQLite table `departments (id INTEGER PRIMARY KEY, name TEXT, location TEXT)`. The class also keeps an identity map, `Department.all`, from primary key to the live instance for that key. Every lookup goes through `instance_from_db`, so a key fetched twice yields the same object.

The model has three modules:

- `Wrappers`: `Option`, standing for Python's `None` versus a present value.
- `Table`: the table as a sequence of rows in storage order.
  - The primary-key constraint is the ghost predicate `KeysUnique`; the ids in use are `Keys`.
  - Each SQL statement the class issues is a pure function on the rows: `FetchOne` (a `SELECT ... WHERE` followed by `fetchone`), `Insert` with `NextRowId` (the key behind `lastrowid`), `UpdateWhereId` and `DeleteWhereId`.
  - Lemmas state what each statement does to the keys and what a later `SELECT` by id fetches.
- `Departments`:
  - The class `Department`, with its three mutable fields.
  - The class `Store`, which holds the class-level state: `table`, the identity map `all`, and a ghost footprint `Repr` of every instance the map has held.
  - Each classmethod and instance method of the record is a `Store` method. Its `modifies` clause names the fields and instances it may change:
    - `update` may change only `table`;
    - `instance_from_db` may change the map, the footprint and the one cached instance it reuses;
    - `get_all` and `find_by_name` may change the cached instances, since which ones they reuse depends on the rows. Their postconditions then narrow this. For `find_by_name`, every cached instance other than the one returned is unchanged. For `get_all`, every instance that was not cached is unchanged; and when `CacheBacked()` held, every cached key has a row, so every cached instance is one of those returned.
  - Every method states what becomes of `Repr`: the constructor starts it empty, `save` and `create` add exactly the saved instance, and the lookups add only fresh instances. A client can therefore call the lookups on a store it created itself.
  - `Valid()`: the primary key holds, and every cached instance carries the key it is cached under. Every method except `save` preserves it; `save` preserves it exactly when the instance is not already cached under another key.
  - `CacheBacked()`: every cached key still has its row. Every method except `instance_from_db` preserves it; `instance_from_db` preserves it when the row it is given is in the table, as it always is when one of the lookups calls it.
  - `Lifecycle`, `ListTwo`, `FindTwoByName`, `DeleteOfTwo` and `DeleteThenList` are clients on a fresh table. They create departments, then list, find and delete them, and state which instances come back.

Two behaviours of the code that callers may not expect, both modelled as written:

- **Deleting a department that is not cached.** At line 150, `del type(self).all[self.id]` raises `KeyError` when `self.id` is not a key of `all`. A second `delete` of the same instance is one example, since its id is then `None`. The `DELETE` statement on lines 141-147 has already run by then. `Store.Delete` returns this as `KeyError(id)` and leaves `all` and `d.id` unchanged.
- **Saving twice.** Lines 87-91 run the same way on an instance that is already saved. They insert a second row and give the instance the new key. The old map entry still points at the instance, whose id no longer matches that key. `Store.Save` states exactly when `Valid()` survives.

## Model

| member | source | states |
|---|---|---|
| Departments.Department.constructor | lib/department.py:8-11 | The new instance holds the given name and location and the given id, `None` by default. |
| Departments.Store.constructor | lib/department.py:6 | The identity map starts empty, on an empty table, with an empty footprint; both invariants hold. |
| Departments.Store.Save | lib/department.py:78-91 | The instance gets a positive key not in use before; exactly one row with its columns is appended; it is cached under that key and nothing else in the map changes, and the footprint gains exactly the instance. The map stays consistent iff the instance was not cached under another key. |
| Departments.Store.Create | lib/department.py:51-56 | The result is a new instance with the given columns, saved under a fresh positive key, its row appended and cached; the footprint gains exactly that instance; the invariants hold afterwards. |
| Departments.Store.Update | lib/department.py:58-66 | Only the row whose id is the instance's id takes its columns. With no such row, or no id, the table is unchanged and no error occurs. The identity map and all instances are untouched. |
| Departments.Store.Delete | lib/department.py:137-153 | The rows with the instance's id are removed. It ends normally iff that id is a cache key: the entry is removed and `id` becomes `None`. Otherwise the outcome is `KeyError(id)`, and the map and `id` are as before. |
| Departments.Store.InstanceFromDb | lib/department.py:93-108 | The result holds the row's id and columns. If the id was cached it is the cached object itself, with name and location overwritten. Otherwise it is a new object, cached under that one key. No other key changes, and no instance other than the reused one changes, whether cached or not. |
| Departments.Store.GetAll | lib/department.py:110-117 | One instance per row, in row order, each holding its row's columns and being the cached instance for its id. No instance appears twice. Earlier cache entries keep their identity, and every instance that was not cached (a deleted one, say) is unchanged. New instances are fresh, and both invariants are kept. |
| Departments.Store.FindById | lib/department.py:119-126 | `None` iff no row has the id, and then the map and any instance cached under the id are unchanged. Otherwise the result is the instance cached under the id (the earlier one if there was one, else a new one) holding that row's columns. |
| Departments.Store.FindByName | lib/department.py:128-135 | `None` iff no row has the name. Otherwise the cached instance of some row with that name, holding its columns, with the same identity rules as `FindById`. Every other cached instance is unchanged, and new instances are fresh. |
| Departments.Lifecycle | lib/department.py:93-108 | On a fresh table, finding a created department by its key yields that very instance; deleting it ends normally and clears its id; a later find by the key yields `None`. |
| Departments.ListTwo | lib/department.py:110-117 | After creating two departments on a fresh table, listing them yields exactly those two instances, in creation order. |
| Departments.FindTwoByName | lib/department.py:128-135 | After creating two departments with different names, finding by the second name yields that very instance, and an unused name yields `None`. |
| Departments.DeleteOfTwo | lib/department.py:137-153 | After creating two departments and deleting the second, the delete ends normally and listing yields only the first instance. |
| Departments.DeleteThenList | lib/department.py:137-153 | After creating and deleting one department, its id is `None` and listing yields nothing. |
| Table.FetchOne | lib/department.py:123-124 | `None` iff no row satisfies the filter; otherwise a row of the table that satisfies it. |
| Table.FetchOneById | lib/department.py:123-124 | Under the primary key, selecting a row's id fetches exactly that row. |
| Table.NextRowId | lib/department.py:87-90 | The key the engine assigns is positive and greater than every id in use. |
| Table.Insert | lib/department.py:82-90 | The new key is positive and unused; the table gains exactly the new row at its end; the ids in use gain exactly the new key; the primary key is kept. |
| Table.UpdateWhereId | lib/department.py:60-65 | Same length; each row with the id takes the new columns, every other row stays as it was. |
| Table.UpdateKeepsKeys | lib/department.py:60-65 | An update keeps the ids in use and the primary key, and changes nothing when the id is not in use. |
| Table.UpdatedRowIsFetched | lib/department.py:58-66 | After updating an id in use, selecting that id fetches the row with the new columns. |
| Table.DeleteWhereId | lib/department.py:141-146 | A row survives iff it was in the table and its id differs from the deleted one. |
| Table.DeleteKeepsKeys | lib/department.py:141-146 | A delete removes exactly its id from the ids in use and keeps the primary key. It removes one row when the id was in use and none otherwise. |

## Left out

- The connection and cursor (`CURSOR`, `CONN`, line 1): each statement acts on `table` at once, as an auto-committed statement would. Database errors and connection failures are not modelled.
- `create_table` and `drop_table` (lines 16-35): the store starts from an existing, empty table.
- The earlier `save` and `delete` (lines 37-49 and 68-76): later definitions in the class body replace them, so they are never called.
- `__repr__` (lines 13-14): formatting only.
- Table.NextRowId: SQLite's rowid choice is modelled as one more than the largest id, but its contract promises only a fresh positive key. Rowid exhaustion at 2^63-1 and `AUTOINCREMENT` are not modelled.
- Row order: without `ORDER BY` the engine's order is not guaranteed, so the table is fetched in storage order. No contract promises insertion order across deletes.
- Departments.Store.FindByName: promises the instance of some row with the name, not which one when several rows share it, since that depends on the engine's row order.
- NULL column values: names and locations are strings and ids are integers, so `WHERE name is NULL` and non-integer ids are not modelled.
- Departments.Store.Delete: the `KeyError` is a returned outcome, not a raised exception; the row deletion before it still takes effect.
- Subclasses of `Department`: `type(self).all` and `cls(...)` are treated as `Department` itself.
- Concurrent access from several processes or threads.

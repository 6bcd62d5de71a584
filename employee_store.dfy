/**
 * The write side of `EmployeeService`: the `Employees` table of the database context, which
 * `CreateEmployee`, `UpdateEmployee` and `DeleteEmployee` change in place, and `GetEmployeeById`.
 */
module EmployeeStore {
  import opened Wrappers
  import opened Linq
  import opened Employees

  /** The rows of `table` listed in the order of `ids`; an id without a row is skipped. */
  function RowsOf(ids: seq<int>, table: map<int, Employee>): seq<Employee>
    decreases |ids|
  {
    if ids == [] then [] else (if ids[0] in table then [table[ids[0]]] else []) + RowsOf(ids[1..], table)
  }

  /** No id occurs twice. */
  predicate Distinct(ids: seq<int>)
    decreases |ids|
  {
    ids == [] || (ids[0] !in ids[1..] && Distinct(ids[1..]))
  }

  /** Every row is stored under its own id. */
  predicate KeyedById(table: map<int, Employee>)
  {
    forall k :: k in table ==> table[k].id == k
  }

  function IsNot(id: int): int -> bool
  {
    (k: int) => k != id
  }

  function HasNotId(id: int): Employee -> bool
  {
    (e: Employee) => e.id != id
  }

  /** The listing with the row `e` in place of the rows that carry its id. */
  function ReplaceRow(rows: seq<Employee>, e: Employee): (r: seq<Employee>)
    ensures |r| == |rows|
    ensures forall i :: 0 <= i < |rows| ==> r[i] == if rows[i].id == e.id then e else rows[i]
  {
    seq(|rows|, i requires 0 <= i < |rows| => if rows[i].id == e.id then e else rows[i])
  }

  lemma {:induction false} DistinctAppend(ids: seq<int>, n: int)
    requires Distinct(ids) && n !in ids
    ensures Distinct(ids + [n])
    decreases |ids|
  {
    if ids != [] {
      DistinctAppend(ids[1..], n);
      assert (ids + [n])[1..] == ids[1..] + [n];
    }
  }

  lemma {:induction false} DistinctWhere(ids: seq<int>, p: int -> bool)
    requires Distinct(ids)
    ensures Distinct(Where(ids, p))
    decreases |ids|
  {
    if ids != [] {
      DistinctWhere(ids[1..], p);
      WhereMembers(ids[1..], p, ids[0]);
      if p(ids[0]) {
        var w := Where(ids, p);
        assert w == [ids[0]] + Where(ids[1..], p);
        assert w[0] == ids[0] && w[1..] == Where(ids[1..], p);
      } else {
        assert Where(ids, p) == Where(ids[1..], p);
      }
    }
  }

  /** Appending an id with a row appends that row. */
  lemma {:induction false} RowsOfAppend(ids: seq<int>, table: map<int, Employee>, n: int)
    requires n in table
    ensures RowsOf(ids + [n], table) == RowsOf(ids, table) + [table[n]]
    decreases |ids|
  {
    if ids == [] {
      assert ids + [n] == [n];
    } else {
      RowsOfAppend(ids[1..], table, n);
      assert (ids + [n])[1..] == ids[1..] + [n];
    }
  }

  /** The listing depends only on the rows of the listed ids. */
  lemma {:induction false} RowsOfFrame(ids: seq<int>, t1: map<int, Employee>, t2: map<int, Employee>)
    requires forall k :: k in ids ==> (k in t1 <==> k in t2) && (k in t1 ==> t1[k] == t2[k])
    ensures RowsOf(ids, t1) == RowsOf(ids, t2)
    decreases |ids|
  {
    if ids != [] {
      assert forall k :: k in ids[1..] ==> k in ids;
      RowsOfFrame(ids[1..], t1, t2);
      var h1 := if ids[0] in t1 then [t1[ids[0]]] else [];
      var h2 := if ids[0] in t2 then [t2[ids[0]]] else [];
      var k0 := ids[0];
      assert k0 in ids;
      assert (k0 in t1 <==> k0 in t2) && (k0 in t1 ==> t1[k0] == t2[k0]);
      assert h1 == h2;
      assert RowsOf(ids, t1) == h1 + RowsOf(ids[1..], t1);
      assert RowsOf(ids, t2) == h2 + RowsOf(ids[1..], t2);
    }
  }

  /** A row is listed exactly when its id is listed and it is the row stored under that id. */
  lemma {:induction false} RowsOfMember(ids: seq<int>, table: map<int, Employee>, e: Employee)
    requires KeyedById(table)
    ensures e in RowsOf(ids, table) <==> e.id in ids && e.id in table && table[e.id] == e
    decreases |ids|
  {
    if ids != [] {
      RowsOfMember(ids[1..], table, e);
      assert e.id in ids <==> e.id == ids[0] || e.id in ids[1..];
    }
  }

  /** Dropping an id from the listing, and its row from the table, drops exactly the rows with that id. */
  lemma {:induction false} RowsOfWithout(ids: seq<int>, table: map<int, Employee>, id: int)
    requires KeyedById(table)
    ensures RowsOf(Where(ids, IsNot(id)), table - {id}) == Where(RowsOf(ids, table), HasNotId(id))
    decreases |ids|
  {
    if ids != [] {
      RowsOfWithout(ids[1..], table, id);
      var head := if ids[0] in table then [table[ids[0]]] else [];
      WhereAppend(head, RowsOf(ids[1..], table), HasNotId(id));
      if ids[0] != id {
        assert Where(ids, IsNot(id)) == [ids[0]] + Where(ids[1..], IsNot(id));
        if ids[0] in table {
          assert Where(head, HasNotId(id)) == head;
        }
      } else {
        assert Where(ids, IsNot(id)) == Where(ids[1..], IsNot(id));
        if ids[0] in table {
          assert Where(head, HasNotId(id)) == [];
        }
      }
    }
  }

  /** Replacing the row stored under a listed id replaces it in the listing, in place. */
  lemma {:induction false} RowsOfReplace(ids: seq<int>, table: map<int, Employee>, e: Employee)
    requires KeyedById(table) && e.id in table
    ensures RowsOf(ids, table[e.id := e]) == ReplaceRow(RowsOf(ids, table), e)
    decreases |ids|
  {
    if ids != [] {
      RowsOfReplace(ids[1..], table, e);
      var head := if ids[0] in table then [table[ids[0]]] else [];
      assert RowsOf(ids, table) == head + RowsOf(ids[1..], table);
      var head' := if ids[0] in table then [table[e.id := e][ids[0]]] else [];
      assert RowsOf(ids, table[e.id := e]) == head' + RowsOf(ids[1..], table[e.id := e]);
      if ids[0] in table {
        assert table[ids[0]].id == ids[0];
        assert ReplaceRow(head, e)[0] == head'[0];
      }
      assert ReplaceRow(head, e) == head';
      assert ReplaceRow(head + RowsOf(ids[1..], table), e) == ReplaceRow(head, e) + ReplaceRow(RowsOf(ids[1..], table), e);
    }
  }

  /**
   * `_context.Employees`. `table` maps each key to its row; `order` lists the keys in the order
   * the table yields its rows; `nextId` is the next value of the identity column.
   */
  class EmployeeService {
    var table: map<int, Employee>
    var order: seq<int>
    var nextId: int

    ghost predicate Valid()
      reads this
    {
      && 1 <= nextId
      && (forall id :: id in table ==> 1 <= id < nextId)
      && KeyedById(table)
      && (forall id :: id in order <==> id in table)
      && Distinct(order)
    }

    /** The rows of the table, in table order. */
    function Rows(): seq<Employee>
      reads this
    {
      RowsOf(order, table)
    }

    /** An empty table whose identity column starts at 1. */
    constructor ()
      ensures Valid()
      ensures table == map[] && order == [] && nextId == 1
    {
      table, order, nextId := map[], [], 1;
    }

    /** `GetEmployees`, run over the rows of the table. */
    method GetEmployees(q: Query, parsers: EnumParsers) returns (r: QueryResult)
      ensures r == Employees.GetEmployees(Rows(), q, parsers)
      ensures forall e :: e in r.employees ==> e in table.Values
    {
      r := Employees.GetEmployees(Rows(), q, parsers);
      forall e | e in r.employees ensures e in table.Values {
        RowsOfIn(order, table, e);
      }
    }

    /** `GetEmployeeById`: the row stored under `id`, or `null`. */
    method GetEmployeeById(id: int) returns (r: Option<Employee>)
      requires Valid()
      ensures r.Some? <==> id in table
      ensures r.Some? ==> r.value == table[id] && r.value.id == id && r.value in Rows()
    {
      if id in table {
        r := Some(table[id]);
        RowsOfMember(order, table, table[id]);
      } else {
        r := None;
      }
    }

    /** Stores `e` under the next identity value; the caller's row gets that value as its id. */
    method Insert(e: Employee) returns (id: int)
      requires Valid()
      modifies this
      ensures Valid()
      ensures id == old(nextId) && nextId == old(nextId) + 1
      ensures table == old(table)[id := e.(id := id)] && order == old(order) + [id]
      ensures Rows() == old(Rows()) + [e.(id := id)]
    {
      id := nextId;
      RowsOfAppend(order, table[id := e.(id := id)], id);
      RowsOfFrame(order, table, table[id := e.(id := id)]);
      DistinctAppend(order, id);
      table := table[id := e.(id := id)];
      order := order + [id];
      nextId := nextId + 1;
    }

    /**
     * `CreateEmployee`: `Add` then `SaveChanges`. The key is an identity column, so a row that
     * arrives with an id of its own is refused by the database (`None`) and nothing is stored.
     */
    method CreateEmployee(e: Employee) returns (saved: Option<int>)
      requires Valid()
      modifies this
      ensures Valid()
      ensures e.id != 0 ==> saved == None && unchanged(this)
      ensures e.id == 0 ==> saved == Some(old(nextId)) && nextId == old(nextId) + 1
      ensures e.id == 0 ==> table == old(table)[old(nextId) := e.(id := old(nextId))]
      ensures e.id == 0 ==> Rows() == old(Rows()) + [e.(id := old(nextId))]
    {
      if e.id != 0 {
        saved := None;
      } else {
        var id := Insert(e);
        saved := Some(id);
      }
    }

    /**
     * `UpdateEmployee`: `Update` then `SaveChanges`, a full-row replace by id. A row without an
     * id is tracked as new and inserted; a row whose id is not in the table affects no row, which
     * the save reports as a concurrency failure (`None`), and nothing changes.
     */
    method UpdateEmployee(e: Employee) returns (saved: Option<int>)
      requires Valid()
      modifies this
      ensures Valid()
      ensures e.id == 0 ==> saved == Some(old(nextId)) && nextId == old(nextId) + 1
                            && table == old(table)[old(nextId) := e.(id := old(nextId))]
                            && Rows() == old(Rows()) + [e.(id := old(nextId))]
      ensures e.id != 0 && e.id in old(table) ==>
                saved == Some(e.id) && table == old(table)[e.id := e] && order == old(order)
                && nextId == old(nextId) && Rows() == ReplaceRow(old(Rows()), e)
      ensures e.id != 0 && e.id !in old(table) ==> saved == None && unchanged(this)
    {
      if e.id == 0 {
        var id := Insert(e);
        saved := Some(id);
      } else if e.id in table {
        RowsOfReplace(order, table, e);
        table := table[e.id := e];
        saved := Some(e.id);
      } else {
        saved := None;
      }
    }

    /** `DeleteEmployee`: removes the row with that id; an absent id is a no-op. */
    method DeleteEmployee(id: int)
      requires Valid()
      modifies this
      ensures Valid()
      ensures id !in old(table) ==> unchanged(this)
      ensures table == old(table) - {id} && nextId == old(nextId)
      ensures Rows() == Where(old(Rows()), HasNotId(id))
    {
      if id in table {
        RowsOfWithout(order, table, id);
        DistinctWhere(order, IsNot(id));
        forall k ensures k in Where(order, IsNot(id)) <==> k in order && k != id {
          WhereMembers(order, IsNot(id), k);
        }
        table := table - {id};
        order := Where(order, IsNot(id));
      } else {
        assert table - {id} == table;
        forall e | e in Rows() ensures HasNotId(id)(e) {
          RowsOfMember(order, table, e);
        }
        WhereAll(Rows(), HasNotId(id));
      }
    }
  }

  /** Every listed row is a row of the table. */
  lemma {:induction false} RowsOfIn(ids: seq<int>, table: map<int, Employee>, e: Employee)
    ensures e in RowsOf(ids, table) ==> e in table.Values
    decreases |ids|
  {
    if ids != [] {
      RowsOfIn(ids[1..], table, e);
    }
  }
}

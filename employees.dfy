/**
 * The employee entity and the read side of `EmployeeService`: `GetEmployees`, a query that filters
 * the employee rows by name, department and type, counts what is left and cuts one page out of it.
 */
module Employees {
  import opened Wrappers
  import opened Text
  import opened Linq

  /**
   * The `Department` enum: its four named members, or any other value of its underlying integer
   * (a C# enum variable may hold one). `Unnamed` stands only for ordinals that no named member
   * has; which ordinals the named members have is not modelled.
   */
  datatype Department = IT | HR | Sales | Admin | Unnamed(ordinal: int)

  /** The `EmployeeType` enum; its members are not part of this model. */
  type EmployeeType(==)

  /** An employee row, reduced to the columns the logic reads. */
  datatype Employee = Employee(id: int, fullName: string, department: Department, kind: EmployeeType)

  /** C#'s `int`. */
  type Int32 = x: int | -0x8000_0000 <= x <= 0x7fff_ffff

  /** `Enum.TryParse` for the two enums: `None` when the string does not parse. */
  datatype EnumParsers = EnumParsers(
    department: string -> Option<Department>,
    employeeType: string -> Option<EmployeeType>)

  /** The arguments of `GetEmployees`; a `None` string is a `null` one. */
  datatype Query = Query(
    searchTerm: Option<string>,
    selectedDepartment: Option<string>,
    selectedType: Option<string>,
    pageNumber: Int32,
    pageSize: Int32)

  /** The pair `GetEmployees` returns: one page of rows and the size of the whole filtered set. */
  datatype QueryResult = QueryResult(employees: seq<Employee>, totalCount: int)

  /** The department the query filters on: the selection is non-empty and parses. */
  function DepartmentFilter(q: Query, parsers: EnumParsers): Option<Department>
  {
    if IsNullOrEmpty(q.selectedDepartment) then None else parsers.department(q.selectedDepartment.value)
  }

  /** The employee type the query filters on: the selection is non-empty and parses. */
  function TypeFilter(q: Query, parsers: EnumParsers): Option<EmployeeType>
  {
    if IsNullOrEmpty(q.selectedType) then None else parsers.employeeType(q.selectedType.value)
  }

  /** Case-insensitive substring match of the search term in the full name. */
  predicate NameMatches(e: Employee, term: string)
  {
    Contains(Lower(e.fullName), Lower(term))
  }

  /** The first stage of the pipeline: the name filter, applied only to a non-empty term. */
  function SearchByName(rows: seq<Employee>, searchTerm: Option<string>): seq<Employee>
  {
    if IsNullOrEmpty(searchTerm) then rows
    else Where(rows, (e: Employee) => NameMatches(e, searchTerm.value))
  }

  /** The second stage: the department filter, applied only when one is in force. */
  function ByDepartment(rows: seq<Employee>, d: Option<Department>): seq<Employee>
  {
    if d.None? then rows else Where(rows, (e: Employee) => e.department == d.value)
  }

  /** The third stage: the type filter, applied only when one is in force. */
  function ByType(rows: seq<Employee>, t: Option<EmployeeType>): seq<Employee>
  {
    if t.None? then rows else Where(rows, (e: Employee) => e.kind == t.value)
  }

  /** The filtered rows, stage after stage, as the query composes them. */
  function Filtered(rows: seq<Employee>, q: Query, parsers: EnumParsers): seq<Employee>
  {
    ByType(ByDepartment(SearchByName(rows, q.searchTerm), DepartmentFilter(q, parsers)), TypeFilter(q, parsers))
  }

  /** The reference definition of the filter: one condition a row must meet to be listed. */
  predicate Matches(e: Employee, q: Query, parsers: EnumParsers)
  {
    && (IsNullOrEmpty(q.searchTerm) || NameMatches(e, q.searchTerm.value))
    && (DepartmentFilter(q, parsers).None? || e.department == DepartmentFilter(q, parsers).value)
    && (TypeFilter(q, parsers).None? || e.kind == TypeFilter(q, parsers).value)
  }

  function MatchesQuery(q: Query, parsers: EnumParsers): Employee -> bool
  {
    (e: Employee) => Matches(e, q, parsers)
  }

  /** The three stages together are a single `Where` with the reference condition. */
  lemma FilteredIsWhere(rows: seq<Employee>, q: Query, parsers: EnumParsers)
    ensures Filtered(rows, q, parsers) == Where(rows, MatchesQuery(q, parsers))
  {
    var st, d, t := q.searchTerm, DepartmentFilter(q, parsers), TypeFilter(q, parsers);
    var nameKeep := (e: Employee) => IsNullOrEmpty(st) || NameMatches(e, st.value);
    var deptKeep := (e: Employee) => d.None? || e.department == d.value;
    var typeKeep := (e: Employee) => t.None? || e.kind == t.value;
    var nameDeptKeep := (e: Employee) => nameKeep(e) && deptKeep(e);

    var s1 := SearchByName(rows, st);
    if IsNullOrEmpty(st) {
      WhereAll(rows, nameKeep);
    } else {
      WhereCongruent(rows, (e: Employee) => NameMatches(e, st.value), nameKeep);
    }
    assert s1 == Where(rows, nameKeep);

    var s2 := ByDepartment(s1, d);
    if d.None? {
      WhereAll(s1, deptKeep);
    } else {
      WhereCongruent(s1, (e: Employee) => e.department == d.value, deptKeep);
    }
    WhereWhere(rows, nameKeep, deptKeep, nameDeptKeep);
    assert s2 == Where(rows, nameDeptKeep);

    if t.None? {
      WhereAll(s2, typeKeep);
    } else {
      WhereCongruent(s2, (e: Employee) => e.kind == t.value, typeKeep);
    }
    WhereWhere(rows, nameDeptKeep, typeKeep, MatchesQuery(q, parsers));
  }

  /** A row is in the filtered set exactly when it is a row of the table that meets the filter. */
  lemma FilteredMember(rows: seq<Employee>, q: Query, parsers: EnumParsers, e: Employee)
    ensures e in Filtered(rows, q, parsers) <==> e in rows && Matches(e, q, parsers)
  {
    FilteredIsWhere(rows, q, parsers);
    WhereMembers(rows, MatchesQuery(q, parsers), e);
  }

  /**
   * The offset of a page, `(PageNumber - 1) * PageSize`, computed without overflow: the product of
   * two 32-bit values fits a 64-bit integer.
   */
  function Offset(pageNumber: Int32, pageSize: Int32): int
  {
    (pageNumber - 1) * pageSize
  }

  /** The page cut out of the filtered rows: `Skip(offset).Take(size)`. */
  function Page(filtered: seq<Employee>, offset: int, size: int): seq<Employee>
  {
    Take(Skip(filtered, offset), size)
  }

  /** `GetEmployees`: one page of the filtered rows and the number of filtered rows. */
  function GetEmployees(rows: seq<Employee>, q: Query, parsers: EnumParsers): (r: QueryResult)
    ensures r.totalCount == |Where(rows, MatchesQuery(q, parsers))|
    ensures forall e :: e in r.employees ==> e in rows && Matches(e, q, parsers)
    ensures |r.employees| <= if q.pageSize <= 0 then 0 else q.pageSize as int
  {
    var filtered := Filtered(rows, q, parsers);
    FilteredIsWhere(rows, q, parsers);
    WhereSound(rows, MatchesQuery(q, parsers));
    QueryResult(Page(filtered, Offset(q.pageNumber, q.pageSize), q.pageSize), |filtered|)
  }

  /**
   * For a page number and a page size of at least one, the page is exactly the slice of the
   * filtered rows that starts at the offset and holds at most `size` rows; it is empty past the end.
   */
  lemma PageIsSlice(filtered: seq<Employee>, pageNumber: Int32, pageSize: Int32)
    requires pageNumber >= 1 && pageSize >= 1
    ensures var o := Offset(pageNumber, pageSize);
            var lo := if o < |filtered| then o else |filtered|;
            var hi := if o + pageSize < |filtered| then o + pageSize else |filtered|;
            0 <= lo <= hi <= |filtered| &&
            Page(filtered, o, pageSize) == filtered[lo..hi]
  {
    OffsetNonNegative(pageNumber, pageSize);
    PageAt(filtered, Offset(pageNumber, pageSize), pageSize);
  }

  lemma OffsetNonNegative(pageNumber: Int32, pageSize: Int32)
    requires pageNumber >= 1 && pageSize >= 1
    ensures Offset(pageNumber, pageSize) >= 0
  {
    var k: int := pageNumber - 1;
    assert Offset(pageNumber, pageSize) == k * pageSize;
  }

  /** The page at a non-negative offset, by the clipped slice bounds. */
  lemma PageAt(filtered: seq<Employee>, o: int, size: int)
    requires o >= 0 && size >= 1
    ensures var lo := if o < |filtered| then o else |filtered|;
            var hi := if o + size < |filtered| then o + size else |filtered|;
            0 <= lo <= hi <= |filtered| && Page(filtered, o, size) == filtered[lo..hi]
  {
    if o < |filtered| {
      var rest := filtered[o..];
      assert Skip(filtered, o) == rest;
      if o + size < |filtered| {
        assert rest[..size] == filtered[o..o + size];
      }
    } else {
      assert Skip(filtered, o) == [];
    }
  }

  /** The listed page keeps the order of the table: it is a contiguous slice of the filtered rows. */
  lemma ResultIsSliceOfFilter(rows: seq<Employee>, q: Query, parsers: EnumParsers)
    requires q.pageNumber >= 1 && q.pageSize >= 1
    ensures var f := Where(rows, MatchesQuery(q, parsers));
            var o := Offset(q.pageNumber, q.pageSize);
            var lo := if o < |f| then o else |f|;
            var hi := if o + q.pageSize < |f| then o + q.pageSize else |f|;
            0 <= lo <= hi <= |f| && GetEmployees(rows, q, parsers).employees == f[lo..hi]
  {
    var f := Where(rows, MatchesQuery(q, parsers));
    FilteredIsWhere(rows, q, parsers);
    PageIsSlice(f, q.pageNumber, q.pageSize);
  }

  /** A page whose offset is at or past the end of the filtered rows is empty, not an error. */
  lemma PagePastEndEmpty(filtered: seq<Employee>, pageNumber: Int32, pageSize: Int32)
    requires pageNumber >= 1 && pageSize >= 1
    requires Offset(pageNumber, pageSize) >= |filtered|
    ensures Page(filtered, Offset(pageNumber, pageSize), pageSize) == []
  {
    PageIsSlice(filtered, pageNumber, pageSize);
  }

  /** Twelve rows at five per page: pages 1 and 2 hold five rows, page 3 two, page 4 none. */
  lemma TwelveRowsFivePerPage(filtered: seq<Employee>)
    requires |filtered| == 12
    ensures |Page(filtered, Offset(1, 5), 5)| == 5
    ensures |Page(filtered, Offset(2, 5), 5)| == 5
    ensures |Page(filtered, Offset(3, 5), 5)| == 2
    ensures Page(filtered, Offset(3, 5), 5) == filtered[10..]
    ensures Page(filtered, Offset(4, 5), 5) == []
  {
  }

  /**
   * With no search term and no selection that parses, nothing is filtered out: the count is the
   * size of the table and the page is cut from the table itself.
   */
  lemma UnfilteredListCountsAll(rows: seq<Employee>, q: Query, parsers: EnumParsers)
    requires IsNullOrEmpty(q.searchTerm)
    requires DepartmentFilter(q, parsers).None? && TypeFilter(q, parsers).None?
    ensures GetEmployees(rows, q, parsers).totalCount == |rows|
    ensures GetEmployees(rows, q, parsers).employees == Page(rows, Offset(q.pageNumber, q.pageSize), q.pageSize)
  {
  }

  /** An empty search term is no search term: `""` and `null` list the same rows. */
  lemma EmptySearchIgnored(rows: seq<Employee>, q: Query, parsers: EnumParsers)
    requires IsNullOrEmpty(q.searchTerm)
    ensures GetEmployees(rows, q, parsers) == GetEmployees(rows, q.(searchTerm := None), parsers)
  {
  }

  /** A department selection that is empty or does not parse is ignored, not reported. */
  lemma UnparsableDepartmentIgnored(rows: seq<Employee>, q: Query, parsers: EnumParsers)
    requires IsNullOrEmpty(q.selectedDepartment) || parsers.department(q.selectedDepartment.value).None?
    ensures GetEmployees(rows, q, parsers) == GetEmployees(rows, q.(selectedDepartment := None), parsers)
  {
  }

  /** A type that parses restricts every listed row, and every counted row, to it. */
  lemma TypeFilterApplied(rows: seq<Employee>, q: Query, parsers: EnumParsers, t: EmployeeType)
    requires !IsNullOrEmpty(q.selectedType) && parsers.employeeType(q.selectedType.value) == Some(t)
    ensures forall e :: e in GetEmployees(rows, q, parsers).employees ==> e.kind == t
    ensures forall e :: e in Filtered(rows, q, parsers) ==> e.kind == t
  {
    forall e | e in Filtered(rows, q, parsers) ensures e.kind == t {
      FilteredMember(rows, q, parsers, e);
    }
  }

  /** A search term that is set restricts every listed row to names containing it, ignoring case. */
  lemma SearchFilterApplied(rows: seq<Employee>, q: Query, parsers: EnumParsers)
    requires !IsNullOrEmpty(q.searchTerm)
    ensures forall e :: e in GetEmployees(rows, q, parsers).employees ==>
              Contains(Lower(e.fullName), Lower(q.searchTerm.value))
    ensures forall e :: e in Filtered(rows, q, parsers) ==>
              Contains(Lower(e.fullName), Lower(q.searchTerm.value))
  {
    forall e | e in Filtered(rows, q, parsers) ensures Contains(Lower(e.fullName), Lower(q.searchTerm.value)) {
      FilteredMember(rows, q, parsers, e);
    }
  }

  /** A type selection that is empty or does not parse is ignored, not reported. */
  lemma UnparsableTypeIgnored(rows: seq<Employee>, q: Query, parsers: EnumParsers)
    requires IsNullOrEmpty(q.selectedType) || parsers.employeeType(q.selectedType.value).None?
    ensures GetEmployees(rows, q, parsers) == GetEmployees(rows, q.(selectedType := None), parsers)
  {
  }

  /** A department that parses restricts every listed row, and every counted row, to it. */
  lemma DepartmentFilterApplied(rows: seq<Employee>, q: Query, parsers: EnumParsers, d: Department)
    requires !IsNullOrEmpty(q.selectedDepartment) && parsers.department(q.selectedDepartment.value) == Some(d)
    ensures forall e :: e in GetEmployees(rows, q, parsers).employees ==> e.department == d
    ensures forall e :: e in Filtered(rows, q, parsers) ==> e.department == d
  {
    forall e | e in Filtered(rows, q, parsers) ensures e.department == d {
      FilteredMember(rows, q, parsers, e);
    }
  }

  /** The search ignores case: lower-casing the term first lists exactly the same rows. */
  lemma SearchIgnoresCase(rows: seq<Employee>, q: Query, parsers: EnumParsers, term: string)
    ensures GetEmployees(rows, q.(searchTerm := Some(Lower(term))), parsers)
         == GetEmployees(rows, q.(searchTerm := Some(term)), parsers)
  {
    LowerEmpty(term);
    LowerIdempotent(term);
    if term != "" {
      var lowered := q.(searchTerm := Some(Lower(term)));
      var plain := q.(searchTerm := Some(term));
      forall e: Employee ensures NameMatches(e, Lower(term)) == NameMatches(e, term) {
        LowerIdempotent(term);
      }
      WhereCongruent(rows, (e: Employee) => NameMatches(e, Lower(term)), (e: Employee) => NameMatches(e, term));
      assert SearchByName(rows, lowered.searchTerm) == SearchByName(rows, plain.searchTerm);
      assert Filtered(rows, lowered, parsers) == Filtered(rows, plain, parsers);
    }
  }

  // The offset as the source computes it: unchecked 32-bit arithmetic, which wraps around.

  /** Reduction of an integer to C#'s `int`, modulo 2^32 (unchecked conversion). */
  function Wrap32(x: int): Int32
  {
    (x + 0x8000_0000) % 0x1_0000_0000 - 0x8000_0000
  }

  /** `(PageNumber - 1) * PageSize` in unchecked 32-bit arithmetic, as written in the query. */
  function OffsetAsWritten(pageNumber: Int32, pageSize: Int32): Int32
  {
    Wrap32(Wrap32(pageNumber - 1) * pageSize)
  }

  /** Below the overflow bound the two offsets agree. */
  lemma OffsetAsWrittenAgrees(pageNumber: Int32, pageSize: Int32)
    requires pageNumber >= 1 && pageSize >= 1
    requires Offset(pageNumber, pageSize) <= 0x7fff_ffff
    ensures OffsetAsWritten(pageNumber, pageSize) == Offset(pageNumber, pageSize)
  {
  }

  /**
   * Page 1073741825 at four rows per page lies far past the end of any table whose count fits an
   * `int`, yet the wrapped offset is 0, so the as-written query returns the first page again.
   */
  lemma AsWrittenPageWrapsToFirst(filtered: seq<Employee>)
    requires 4 <= |filtered| <= 0x7fff_ffff
    ensures OffsetAsWritten(0x4000_0001, 4) == 0
    ensures Page(filtered, OffsetAsWritten(0x4000_0001, 4), 4) == filtered[..4]
    ensures Page(filtered, Offset(0x4000_0001, 4), 4) == []
  {
    assert Wrap32(0x4000_0000 * 4) == 0;
  }
}

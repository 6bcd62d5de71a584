/**
 * `EmployeeController`: the session check and the Admin gate in front of every action, the page
 * count of the list view, the positions lookup, and the actions that read or change the table.
 */
module EmployeeControllers {
  import opened Wrappers
  import opened Text
  import opened Linq
  import opened Employees
  import opened EmployeeStore
  import opened Sessions

  const AdminRole: string := "Admin"

  /** `IsAuthenticated`: the session holds a non-empty user name and a non-empty role. */
  predicate IsAuthenticated(values: map<string, string>)
  {
    !IsNullOrEmpty(Lookup(values, UsernameKey)) && !IsNullOrEmpty(Lookup(values, RoleKey))
  }

  /** The same condition, in terms of the session's map. */
  lemma IsAuthenticatedIff(values: map<string, string>)
    ensures IsAuthenticated(values) <==>
            && UsernameKey in values && values[UsernameKey] != ""
            && RoleKey in values && values[RoleKey] != ""
  {
  }

  /** What the checks at the top of an action decide. */
  datatype Access = SendToLogin | Forbidden | Granted

  /** The checks in front of Create, Update and Delete: a session first, then exactly the role "Admin". */
  function AdminGate(values: map<string, string>): (a: Access)
    ensures a == SendToLogin <==> !IsAuthenticated(values)
    ensures a == Granted <==> IsAuthenticated(values) && values[RoleKey] == AdminRole
    ensures a == Forbidden <==> IsAuthenticated(values) && values[RoleKey] != AdminRole
  {
    if !IsAuthenticated(values) then SendToLogin
    else if Lookup(values, RoleKey) != Some(AdminRole) then Forbidden
    else Granted
  }

  /** An empty session, such as the one logging out leaves, is sent to the login page. */
  lemma EmptySessionSentToLogin()
    ensures !IsAuthenticated(map[]) && AdminGate(map[]) == SendToLogin
  {
  }

  /**
   * `TotalPages`: the ceiling of `totalCount / pageSize`. For a page size of 0 the quotient is not
   * a finite number and the conversion to `int` is left unmodelled (`None`).
   */
  function TotalPages(totalCount: nat, pageSize: int): (r: Option<int>)
    ensures r.None? <==> pageSize == 0
    ensures pageSize > 0 ==> (r.value - 1) * pageSize < totalCount <= r.value * pageSize
    ensures pageSize < 0 ==> r.value * pageSize <= totalCount < (r.value - 1) * pageSize
  {
    if pageSize == 0 then None
    else if pageSize > 0 then Some(CeilDivPositive(totalCount, pageSize))
    else Some(totalCount / pageSize)
  }

  /** Ceiling division by a positive divisor. */
  function CeilDivPositive(n: nat, d: int): (q: int)
    requires d > 0
    ensures (q - 1) * d < n <= q * d
  {
    var q := (n + d - 1) / d;
    assert (n + d - 1) == q * d + (n + d - 1) % d;
    q
  }

  /** Twelve rows at five per page make three pages. */
  lemma TwelveRowsMakeThreePages()
    ensures TotalPages(12, 5) == Some(3)
  {
  }

  /** The fixed table of positions per department. */
  const Positions: map<Department, seq<string>> := map[
    IT := ["Software Developer", "System Administrator", "Network Engineer"],
    HR := ["HR Specialist", "HR Manager", "Talent Acquisition Coordinator"],
    Sales := ["Sales Executive", "Sales Manager", "Account Executive"],
    Admin := ["Office Manager", "Executive Assistant", "Receptionist"]]

  /**
   * `GetPositions`: nothing for a caller without a session; otherwise the positions of the
   * department, and nothing for a department the table does not list.
   */
  function GetPositions(values: map<string, string>, department: Department): (r: seq<string>)
    ensures !IsAuthenticated(values) ==> r == []
    ensures IsAuthenticated(values) && department.Unnamed? ==> r == []
    ensures IsAuthenticated(values) && !department.Unnamed? ==> |r| == 3
  {
    if !IsAuthenticated(values) then []
    else if department in Positions then Positions[department]
    else []
  }

  /** The positions of the IT department, for a caller with a session. */
  lemma PositionsOfIT(values: map<string, string>)
    requires IsAuthenticated(values)
    ensures GetPositions(values, IT) == ["Software Developer", "System Administrator", "Network Engineer"]
  {
  }

  /** The `TempData` entry an action leaves for the list page. */
  datatype Flash = Error(text: string) | Message(text: string)

  /** `EmployeeListViewModel`. */
  datatype ListViewModel = ListViewModel(
    employees: seq<Employee>,
    pageNumber: Int32,
    pageSize: Int32,
    totalPages: Option<int>,
    searchTerm: Option<string>,
    selectedDepartment: Option<string>,
    selectedType: Option<string>)

  /** What an action answers. */
  datatype ActionResult =
    | RedirectToLogin                 // to Account/Login
    | RedirectToList(flash: Flash)    // to List, with a message
    | RedirectToSuccess(id: int)      // to Success, for the row just created
    | NotFound
    | ListView(model: ListViewModel)
    | FormView(filled: Option<Employee>)     // the create or update form, empty or refilled
    | EmployeeView(row: Employee)            // the details, success and delete-confirmation pages
    | ErrorPage                              // the save threw and the error handler answered

  const CreateDenied: string := "You do not have permission to create employees."
  const UpdateDenied: string := "You do not have permission to update employees."
  const DeleteDenied: string := "You do not have permission to delete employees."

  function UpdatedMessage(id: int, name: string): string
  {
    "Employee with ID " + IntToString(id) + " and Name " + name + " has been updated."
  }

  function DeletedMessage(id: int, name: string): string
  {
    "Employee with ID " + IntToString(id) + " and Name " + name + " has been deleted."
  }

  class EmployeeController {
    const session: Session
    const service: EmployeeService

    constructor (session: Session, service: EmployeeService)
      ensures this.session == session && this.service == service
    {
      this.session := session;
      this.service := service;
    }

    /** `List`: the filtered page with its page count, for a caller with a session. */
    method List(q: Query, parsers: EnumParsers) returns (r: ActionResult)
      ensures !IsAuthenticated(session.values) ==> r == RedirectToLogin
      ensures IsAuthenticated(session.values) ==>
                var result := Employees.GetEmployees(service.Rows(), q, parsers);
                && r.ListView?
                && r.model.employees == result.employees
                && r.model.totalPages == TotalPages(result.totalCount, q.pageSize)
                && r.model.pageNumber == q.pageNumber && r.model.pageSize == q.pageSize
                && r.model.searchTerm == q.searchTerm
                && r.model.selectedDepartment == q.selectedDepartment
                && r.model.selectedType == q.selectedType
    {
      if !IsAuthenticated(session.values) {
        return RedirectToLogin;
      }
      var result := service.GetEmployees(q, parsers);
      var pages := TotalPages(result.totalCount, q.pageSize);
      r := ListView(ListViewModel(result.employees, q.pageNumber, q.pageSize, pages,
                                  q.searchTerm, q.selectedDepartment, q.selectedType));
    }

    /** `Create` (GET): the empty form, for an Admin only. */
    method CreateForm() returns (r: ActionResult)
      ensures AdminGate(session.values) == SendToLogin ==> r == RedirectToLogin
      ensures AdminGate(session.values) == Forbidden ==> r == RedirectToList(Error(CreateDenied))
      ensures AdminGate(session.values) == Granted ==> r == FormView(None)
    {
      var access := AdminGate(session.values);
      if access == SendToLogin {
        return RedirectToLogin;
      }
      if access == Forbidden {
        return RedirectToList(Error(CreateDenied));
      }
      r := FormView(None);
    }

    /** `Create` (POST): an Admin's valid row is saved once; nothing else changes the table. */
    method Create(e: Employee, modelValid: bool) returns (r: ActionResult)
      requires service.Valid()
      modifies service
      ensures service.Valid()
      ensures AdminGate(session.values) == SendToLogin ==> r == RedirectToLogin
      ensures AdminGate(session.values) == Forbidden ==> r == RedirectToList(Error(CreateDenied))
      ensures AdminGate(session.values) != Granted || !modelValid ==> unchanged(service)
      ensures AdminGate(session.values) == Granted && !modelValid ==> r == FormView(Some(e))
      ensures AdminGate(session.values) == Granted && modelValid && e.id == 0 ==>
                var id := old(service.nextId);
                && r == RedirectToSuccess(id)
                && service.table == old(service.table)[id := e.(id := id)]
                && service.Rows() == old(service.Rows()) + [e.(id := id)]
                && service.nextId == id + 1
      ensures AdminGate(session.values) == Granted && modelValid && e.id != 0 ==>
                r == ErrorPage && unchanged(service)
    {
      var access := AdminGate(session.values);
      if access == SendToLogin {
        return RedirectToLogin;
      }
      if access == Forbidden {
        return RedirectToList(Error(CreateDenied));
      }
      if !modelValid {
        return FormView(Some(e));
      }
      var saved := service.CreateEmployee(e);
      if saved.Some? {
        r := RedirectToSuccess(saved.value);
      } else {
        r := ErrorPage;
      }
    }

    /** `Details` and `Success`: the row with that id, for a caller with a session. */
    method ShowEmployee(id: int) returns (r: ActionResult)
      requires service.Valid()
      ensures !IsAuthenticated(session.values) ==> r == RedirectToLogin
      ensures IsAuthenticated(session.values) && id !in service.table ==> r == NotFound
      ensures IsAuthenticated(session.values) && id in service.table ==>
                r == EmployeeView(service.table[id]) && r.row.id == id && r.row in service.Rows()
    {
      if !IsAuthenticated(session.values) {
        return RedirectToLogin;
      }
      var found := service.GetEmployeeById(id);
      if found.None? {
        return NotFound;
      }
      r := EmployeeView(found.value);
    }

    /** `Update` (GET): the form filled with the row, for an Admin only. */
    method UpdateForm(id: int) returns (r: ActionResult)
      requires service.Valid()
      ensures AdminGate(session.values) == SendToLogin ==> r == RedirectToLogin
      ensures AdminGate(session.values) == Forbidden ==> r == RedirectToList(Error(UpdateDenied))
      ensures AdminGate(session.values) == Granted && id !in service.table ==> r == NotFound
      ensures AdminGate(session.values) == Granted && id in service.table ==>
                r == FormView(Some(service.table[id])) && service.table[id].id == id
    {
      var access := AdminGate(session.values);
      if access == SendToLogin {
        return RedirectToLogin;
      }
      if access == Forbidden {
        return RedirectToList(Error(UpdateDenied));
      }
      var found := service.GetEmployeeById(id);
      if found.None? {
        return NotFound;
      }
      r := FormView(found);
    }

    /** `Update` (POST): an Admin's valid row is saved once; nothing else changes the table. */
    method Update(e: Employee, modelValid: bool) returns (r: ActionResult)
      requires service.Valid()
      modifies service
      ensures service.Valid()
      ensures AdminGate(session.values) == SendToLogin ==> r == RedirectToLogin
      ensures AdminGate(session.values) == Forbidden ==> r == RedirectToList(Error(UpdateDenied))
      ensures AdminGate(session.values) != Granted || !modelValid ==> unchanged(service)
      ensures AdminGate(session.values) == Granted && !modelValid ==> r == FormView(Some(e))
      ensures AdminGate(session.values) == Granted && modelValid && e.id != 0 && e.id in old(service.table) ==>
                && r == RedirectToList(Message(UpdatedMessage(e.id, e.fullName)))
                && service.table == old(service.table)[e.id := e]
                && service.Rows() == ReplaceRow(old(service.Rows()), e)
                && service.nextId == old(service.nextId)
      ensures AdminGate(session.values) == Granted && modelValid && e.id == 0 ==>
                var id := old(service.nextId);
                && r == RedirectToList(Message(UpdatedMessage(id, e.fullName)))
                && service.table == old(service.table)[id := e.(id := id)]
                && service.Rows() == old(service.Rows()) + [e.(id := id)]
                && service.nextId == id + 1
      ensures AdminGate(session.values) == Granted && modelValid && e.id != 0 && e.id !in old(service.table) ==>
                r == ErrorPage && unchanged(service)
    {
      var access := AdminGate(session.values);
      if access == SendToLogin {
        return RedirectToLogin;
      }
      if access == Forbidden {
        return RedirectToList(Error(UpdateDenied));
      }
      if !modelValid {
        return FormView(Some(e));
      }
      var saved := service.UpdateEmployee(e);
      if saved.Some? {
        r := RedirectToList(Message(UpdatedMessage(saved.value, e.fullName)));
      } else {
        r := ErrorPage;
      }
    }

    /** `Delete` (GET): the confirmation page for the row, for an Admin only. */
    method DeleteForm(id: int) returns (r: ActionResult)
      requires service.Valid()
      ensures AdminGate(session.values) == SendToLogin ==> r == RedirectToLogin
      ensures AdminGate(session.values) == Forbidden ==> r == RedirectToList(Error(DeleteDenied))
      ensures AdminGate(session.values) == Granted && id !in service.table ==> r == NotFound
      ensures AdminGate(session.values) == Granted && id in service.table ==>
                r == EmployeeView(service.table[id]) && service.table[id].id == id
    {
      var access := AdminGate(session.values);
      if access == SendToLogin {
        return RedirectToLogin;
      }
      if access == Forbidden {
        return RedirectToList(Error(DeleteDenied));
      }
      var found := service.GetEmployeeById(id);
      if found.None? {
        return NotFound;
      }
      r := EmployeeView(found.value);
    }

    /** `DeleteConfirmed`: an Admin deletes exactly the row with that id, if there is one. */
    method DeleteConfirmed(id: int) returns (r: ActionResult)
      requires service.Valid()
      modifies service
      ensures service.Valid()
      ensures AdminGate(session.values) == SendToLogin ==> r == RedirectToLogin
      ensures AdminGate(session.values) == Forbidden ==> r == RedirectToList(Error(DeleteDenied))
      ensures AdminGate(session.values) != Granted || id !in old(service.table) ==> unchanged(service)
      ensures AdminGate(session.values) == Granted && id !in old(service.table) ==> r == NotFound
      ensures AdminGate(session.values) == Granted && id in old(service.table) ==>
                && r == RedirectToList(Message(DeletedMessage(id, old(service.table)[id].fullName)))
                && service.table == old(service.table) - {id}
                && service.Rows() == Where(old(service.Rows()), HasNotId(id))
                && service.nextId == old(service.nextId)
    {
      var access := AdminGate(session.values);
      if access == SendToLogin {
        return RedirectToLogin;
      }
      if access == Forbidden {
        return RedirectToList(Error(DeleteDenied));
      }
      var found := service.GetEmployeeById(id);
      if found.None? {
        return NotFound;
      }
      service.DeleteEmployee(id);
      r := RedirectToList(Message(DeletedMessage(id, found.value.fullName)));
    }
  }
}

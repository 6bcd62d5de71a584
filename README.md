# Employee portal: query, authorization gate and session transitions

A Dafny model of the logic of a small ASP.NET employee-roster web application. It covers three parts.

- **The employee query and table** (`EmployeeService`). `GetEmployees` has four stages:
  - a case-insensitive name search;
  - department and type filters, applied only when the selection parses as an enum value;
  - a count of the filtered rows;
  - offset pagination with `Skip((page-1)*size).Take(size)`.

  `GetEmployeeById`, `CreateEmployee`, `UpdateEmployee` and `DeleteEmployee` work on the
  `Employees` table.
- **The employee actions** (`EmployeeController`). Every action first checks the session: it
  needs a non-empty user name and a non-empty role. Every create, update and delete action then
  requires exactly the role `"Admin"`. The controller also computes the page count of the list
  and looks up the positions of a department.
- **The account actions** (`AccountController`). `Register` gives a new user the role `"User"`.
  `Login` clears the session and writes the user name and first role into it. `Logout` empties
  the session.

Files and modules:

- `wrappers.dfy` (`Wrappers`): `Option`. `None` plays the part of C#'s `null`.
- `text.dfy` (`Text`): `string.IsNullOrEmpty`, `ToLower` and `ToUpperInvariant` (ASCII letters only), `string.Contains`
  as a scan with a proof that it finds every occurrence, and decimal rendering of ids for messages.
- `linq.dfy` (`Linq`): `Where`, `Skip` and `Take` with the semantics of `Enumerable`.
  `Skip` of a count at or below zero skips nothing. `Take` of such a count takes nothing.
- `employees.dfy` (`Employees`): the `Employee` row and the `GetEmployees` pipeline as pure
  functions. Each stage is a `Where`. The module proves that the three stages equal one `Where`
  with a single reference condition (`Matches`), then proves the filter, count and page properties.
- `employee_store.dfy` (`EmployeeStore`): class `EmployeeService`. It holds the table
  (`map<int, Employee>`), the order in which the table yields its rows, and the next identity value.
  Its methods change the table in place. Their contracts give the new map and the new row listing
  in terms of the old ones.
- `sessions.dfy` (`Sessions`): class `Session`, the server-side string map, with `SetString` and
  `Clear`. `GetString` is the function `Lookup` on the session's values.
- `employee_controller.dfy` (`EmployeeControllers`): `IsAuthenticated`, the Admin gate,
  `TotalPages`, `GetPositions`, and class `EmployeeController` with one method per action.
- `account_controller.dfy` (`AccountControllers`): class `AccountController` with `Register`,
  `Login` and `Logout`. It holds the shared `Session` and the identity store, a map from each
  user's normalized user name (the upper-cased e-mail) to its roles.

Calls into the framework become inputs:
- `Enum.TryParse` for the two enums is a pair of total functions (`EnumParsers`).
- Model-state validity is a `bool` argument.
- The outcomes of the identity library are `bool` arguments: `CreateAsync` succeeded, and sign-in
  succeeded.
- Error descriptions from the identity library are an argument.

The `Employee` class is not part of this model, and neither are the members of `EmployeeType`. A row
keeps the four columns the logic reads: `Id`, `FullName`, `Department`, `Type`. `EmployeeType` is an
abstract type. `Department` has its four named members plus `Unnamed(ordinal)`, because a C# enum
variable can hold a value with no name. That is why `GetPositions` has its `ContainsKey` branch.

In three places the code's behaviour is easy to overlook; the model follows the code:
- Update of a missing id is not a "not found" answer. `UpdateEmployee` calls EF Core's `Update` and
  then `SaveChanges`, which affects no row and throws. The model's answer is `ErrorPage`.
- A row with id 0 is tracked as new and inserted.
- `Create` adds a row through EF Core. The key is an identity column (EF Core's convention for an
  `int Id`), so a row that arrives with its own id is refused by the database.

## Model

| member | source | states |
|---|---|---|
| `Employees.GetEmployees` | EmployeePortal/Models/EmployeeService.cs:15-50 | the count is the size of the filtered sequence; every listed row is a row of the table that meets the search, department and type filters; at most `PageSize` rows, and none for a page size at or below zero (that last clause describes the `Enumerable` model only: the database refuses such a query, see "Left out") |
| `Employees.FilteredIsWhere` | EmployeePortal/Models/EmployeeService.cs:22-40 | the three conditional `Where` stages equal one `Where` with the reference condition `Matches` |
| `Employees.FilteredMember` | EmployeePortal/Models/EmployeeService.cs:22-40 | a row is in the filtered set if and only if it is a table row meeting every filter in force: no row is invented and none that matches is lost |
| `Employees.SearchFilterApplied` | EmployeePortal/Models/EmployeeService.cs:24-28 | with a non-empty search term, every listed and every counted row has the lower-cased term inside its lower-cased full name |
| `Employees.EmptySearchIgnored` | EmployeePortal/Models/EmployeeService.cs:24-28 | an empty search term gives exactly the result of a `null` one (no name filtering) |
| `Employees.SearchIgnoresCase` | EmployeePortal/Models/EmployeeService.cs:26-27 | lower-casing the search term beforehand changes nothing in the result |
| `Employees.DepartmentFilterApplied` | EmployeePortal/Models/EmployeeService.cs:30-34 | a non-empty department string that parses to `d` makes every listed and counted row have department `d` |
| `Employees.UnparsableDepartmentIgnored` | EmployeePortal/Models/EmployeeService.cs:30-34 | an empty or unparsable department string gives exactly the result of a `null` one |
| `Employees.TypeFilterApplied` | EmployeePortal/Models/EmployeeService.cs:36-40 | a non-empty type string that parses to `t` makes every listed and counted row have type `t` |
| `Employees.UnparsableTypeIgnored` | EmployeePortal/Models/EmployeeService.cs:36-40 | an empty or unparsable type string gives exactly the result of a `null` one |
| `Employees.UnfilteredListCountsAll` | EmployeePortal/Models/EmployeeService.cs:22-49 | with no search term and no selection that parses, the count is the size of the table and the page is cut from the whole table |
| `Employees.PageIsSlice` | EmployeePortal/Models/EmployeeService.cs:44-47 | for page number and size of at least one, the page is exactly `filtered[offset..offset+size]`, both ends clipped to the length |
| `Employees.ResultIsSliceOfFilter` | EmployeePortal/Models/EmployeeService.cs:42-47 | for page number and size of at least one, the listed rows are exactly `filtered[lo..hi]` of the filtered rows in table order, with `lo` the offset and `hi` the offset plus `PageSize`, both clipped to the number of filtered rows |
| `Employees.PagePastEndEmpty` | EmployeePortal/Models/EmployeeService.cs:44-47 | a page whose offset is at or past the end of the filtered rows is empty, not an error |
| `Employees.TwelveRowsFivePerPage` | EmployeePortal/Models/EmployeeService.cs:44-47 | twelve rows at five per page: pages 1 and 2 hold five, page 3 holds the last two, page 4 none |
| `Employees.OffsetAsWrittenAgrees` | EmployeePortal/Models/EmployeeService.cs:45 | while `(PageNumber-1)*PageSize` fits an `int`, the wrapping 32-bit offset equals the true offset |
| `Employees.AsWrittenPageWrapsToFirst` | EmployeePortal/Models/EmployeeService.cs:45 | page 1073741825 at four per page wraps to offset 0 and returns the first page, where the true offset is past the end and the page is empty |
| `Text.ContainsIffOccurs` | EmployeePortal/Models/EmployeeService.cs:27 | the `Contains` scan holds exactly when the needle occurs at some position of the haystack |
| `Text.Lower` | EmployeePortal/Models/EmployeeService.cs:27 | lower-casing keeps the length, leaves no ASCII capital, keeps every character that is not one in place, and turns each capital into its own lower-case letter (the two upper-case alike) |
| `Text.LowerIdempotent` | EmployeePortal/Models/EmployeeService.cs:27 | lower-casing twice is lower-casing once |
| `Text.LowerEmpty` | EmployeePortal/Models/EmployeeService.cs:27 | only the empty string lower-cases to the empty string |
| `Text.UpperIgnoresCase` | EmployeePortal/Controllers/AccountController.cs:77 | two strings that differ only in the case of ASCII letters upper-case to the same string |
| `Linq.WhereMembers` | EmployeePortal/Models/EmployeeService.cs:26 | `Where` keeps an element exactly when it was there and satisfies the predicate |
| `Linq.WhereAppend` | EmployeePortal/Models/EmployeeService.cs:33 | `Where` keeps order: it distributes over concatenation |
| `Linq.WhereWhere` | EmployeePortal/Models/EmployeeService.cs:39 | two `Where` calls in a row are one `Where` with the conjunction |
| `Linq.TakeSkip` | EmployeePortal/Models/EmployeeService.cs:45-46 | for every count `n`, `Take(n)` followed by `Skip(n)` gives back the whole sequence, and `Take(n)` holds at most `n` elements (none for `n <= 0`) |
| `EmployeeStore.EmployeeService.GetEmployees` | EmployeePortal/Models/EmployeeService.cs:15-50 | the query runs over the table's rows in table order, and every listed row is a value of the table |
| `EmployeeStore.EmployeeService.GetEmployeeById` | EmployeePortal/Models/EmployeeService.cs:52-55 | returns a row if and only if one is stored under the id: the row stored there, whose id is that id and which is a row of the listing; `null` otherwise |
| `EmployeeStore.EmployeeService.CreateEmployee` | EmployeePortal/Models/EmployeeService.cs:57-61 | a row without an id is stored under the next identity value and appended to the listing; a row with an id of its own is refused and nothing changes |
| `EmployeeStore.EmployeeService.UpdateEmployee` | EmployeePortal/Models/EmployeeService.cs:63-67 | a present id has its row replaced in place and the others kept; id 0 inserts; an absent id fails and nothing changes |
| `EmployeeStore.EmployeeService.DeleteEmployee` | EmployeePortal/Models/EmployeeService.cs:69-77 | an absent id leaves the table unchanged; otherwise exactly that key is removed and the listing loses exactly the rows with that id, the others staying in order |
| `EmployeeStore.RowsOfWithout` | EmployeePortal/Models/EmployeeService.cs:74 | removing a key from the table and from the order removes exactly the rows with that id from the listing |
| `EmployeeStore.RowsOfReplace` | EmployeePortal/Models/EmployeeService.cs:65 | replacing the row under a key replaces exactly the rows with that id in the listing, in place |
| `EmployeeStore.RowsOfMember` | EmployeePortal/Models/EmployeeService.cs:54 | a row is listed exactly when its id is listed and it is the row stored under that id |
| `EmployeeControllers.IsAuthenticatedIff` | EmployeePortal/Controllers/EmployeeController.cs:23-29 | authenticated exactly when both the `username` and the `role` values are present and non-empty |
| `EmployeeControllers.AdminGate` | EmployeePortal/Controllers/EmployeeController.cs:73-77 | to login exactly when not authenticated; granted exactly when authenticated with role exactly `"Admin"`; forbidden otherwise |
| `EmployeeControllers.EmptySessionSentToLogin` | EmployeePortal/Controllers/EmployeeController.cs:44-45 | an empty session, such as logout leaves, is not authenticated and is sent to login |
| `EmployeeControllers.TotalPages` | EmployeePortal/Controllers/EmployeeController.cs:55 | the ceiling of `totalCount / PageSize`: for a positive size the smallest page count whose pages hold all rows; for a negative size the ceiling of the negative quotient, which is no page count; no value for size 0 (the clauses for a size at or below zero describe the `Enumerable` model only: with the database the query of `List` fails first, see "Left out") |
| `EmployeeControllers.TwelveRowsMakeThreePages` | EmployeePortal/Controllers/EmployeeController.cs:55 | twelve rows at five per page make three pages |
| `EmployeeControllers.GetPositions` | EmployeePortal/Controllers/EmployeeController.cs:208-224 | empty for a caller without a session, whatever the department; three positions for each named department; empty for a department outside the table |
| `EmployeeControllers.PositionsOfIT` | EmployeePortal/Controllers/EmployeeController.cs:216 | IT lists exactly Software Developer, System Administrator, Network Engineer |
| `EmployeeControllers.EmployeeController.List` | EmployeePortal/Controllers/EmployeeController.cs:36-65 | without a session, redirect to login; otherwise the view holds the query's page, its page count and the echoed query |
| `EmployeeControllers.EmployeeController.CreateForm` | EmployeePortal/Controllers/EmployeeController.cs:67-81 | login redirect without a session; the create-permission error and a redirect to List for a non-Admin; the empty form for an Admin |
| `EmployeeControllers.EmployeeController.Create` | EmployeePortal/Controllers/EmployeeController.cs:83-103 | non-Admins and invalid models leave the store unchanged; an Admin's valid row is saved once, appended to the listing under the next identity value, and answered with Success for that id; the identity counter moves up by one |
| `EmployeeControllers.EmployeeController.ShowEmployee` | EmployeePortal/Controllers/EmployeeController.cs:105-125 | `Details` and `Success`: login redirect without a session; NotFound for an absent id; otherwise the row with that id |
| `EmployeeControllers.EmployeeController.UpdateForm` | EmployeePortal/Controllers/EmployeeController.cs:127-144 | login redirect, update-permission error for a non-Admin, NotFound for an absent id, otherwise the form filled with that row |
| `EmployeeControllers.EmployeeController.Update` | EmployeePortal/Controllers/EmployeeController.cs:146-167 | non-Admins and invalid models leave the store unchanged; an Admin's valid row replaces the row with its id in table and listing, exactly once, leaving the identity counter; id 0 appends a new row under the next identity value and moves the counter up by one; an absent id answers the error page and changes nothing; the list gets the update message |
| `EmployeeControllers.EmployeeController.DeleteForm` | EmployeePortal/Controllers/EmployeeController.cs:169-185 | login redirect, delete-permission error for a non-Admin, NotFound for an absent id, otherwise the confirmation page for that row |
| `EmployeeControllers.EmployeeController.DeleteConfirmed` | EmployeePortal/Controllers/EmployeeController.cs:187-206 | non-Admins leave the store unchanged; an absent id answers NotFound without deleting; otherwise exactly that id's row is removed, the identity counter is kept, and the list gets the delete message |
| `AccountControllers.RoleOf` | EmployeePortal/Controllers/AccountController.cs:86 | the first role, or `"User"` when the user has none |
| `AccountControllers.SignedInAccess` | EmployeePortal/Controllers/AccountController.cs:85-90 | the session after login holds exactly two keys; it is authenticated if and only if the e-mail and role are non-empty, and it passes the Admin gate if and only if the e-mail is non-empty and the first role is `"Admin"` |
| `AccountControllers.NormalizedNameIgnoresCase` | EmployeePortal/Controllers/AccountController.cs:77 | e-mails that differ only in the case of their letters are filed under the same normalized name, so login finds a user registered in another case |
| `AccountControllers.RegisteredUserIsNotAdmin` | EmployeePortal/Controllers/AccountController.cs:44 | a user holding only the role registration gives is authenticated after login but is forbidden every mutating action |
| `AccountControllers.AccountController.Register` | EmployeePortal/Controllers/AccountController.cs:32-55 | an invalid model adds no user; if `CreateAsync` succeeds, the user is filed under its normalized e-mail with exactly the role `"User"` and sent to login; otherwise the library's errors are shown and nothing is added |
| `AccountControllers.AccountController.Login` | EmployeePortal/Controllers/AccountController.cs:64-98 | a failed sign-in leaves the session unchanged and reports "Invalid Login Attempt"; a successful one clears it first. With the user found under the normalized e-mail, the session is exactly {username ↦ e-mail, role ↦ first role or `"User"`}; without, it is left empty and "User not found." is reported |
| `AccountControllers.AccountController.Logout` | EmployeePortal/Controllers/AccountController.cs:102-109 | the session ends empty whatever it held, so logging out twice leaves the same state as once |

## Left out

- `EmployeeControllers.TotalPages`: a page size of 0 yields no value. The source divides as `double`, giving infinity or NaN, and the `int` conversion of those depends on the runtime.
- `Employees.GetEmployees`: uses the overflow-free offset, the corrected definition under "Findings", and so does `EmployeeControllers.EmployeeController.List` through it. The source's wrapping 32-bit offset is `Employees.OffsetAsWritten`, and `Employees.AsWrittenPageWrapsToFirst` shows where the two differ.
- `Text.Lower`: covers ASCII letters only. Culture-sensitive `ToLower` and the database collation are not modelled.
- `AccountControllers.AccountController.Register`: whether `CreateAsync` succeeds is an input. The library only succeeds for a user name that is not yet taken; the model takes this from the library and does not check it. A failing `AddToRoleAsync` is not modelled. The normaliser upper-cases ASCII letters only, where the library uses `ToUpperInvariant`.
- `AccountControllers.AccountController.Login`: `FindByEmailAsync` is modelled as a lookup of the upper-cased e-mail among the normalized user names, with ASCII case folding only. The library searches the normalized e-mail column, which equals the user name here because `Register` sets both to the e-mail.
- `Enum.TryParse`: taken as an input function, because its .NET rules are not part of this model. Those rules include numeric strings, whitespace and comma lists.
- Model binding: `ModelState.IsValid`, the defaults `PageNumber = 1` and `PageSize = 5`, and binding the `department` argument of `GetPositions` are framework behaviour. Validity and query values are inputs.
- Password policy, password hashing, the sign-in cookie, and `RememberMe`/lockout in `PasswordSignInAsync` and `SignOutAsync` belong to ASP.NET Identity. The outcome of a sign-in is an input.
- Translation of the query to SQL:
  - The model runs `Skip`/`Take` with `Enumerable` semantics. SQL Server rejects a negative `OFFSET`, a `FETCH NEXT` count below 1 and a negative `TOP` count instead. So with the database, a negative page size (`PageNumber = 1`, `PageSize = -5` sends `Skip(0).Take(-5)`), and possibly a page size of 0 (depending on whether EF Core keeps the `OFFSET` clause for a skip of 0), makes the query throw. `List` then ends in the error page and never computes `TotalPages`. The model instead answers `ListView` with an empty page. A negative offset fails in the same way: `PageNumber = 0` with `PageSize = 5` sends `Skip(-5)`, and so does a wrapped offset that comes out negative. With the database, the query throws and `List` ends in the error page. The model lists the first page instead, and the `EmployeeControllers.EmployeeController.List` row describes that model. The clauses of `Employees.GetEmployees`, `EmployeeControllers.TotalPages` and `EmployeeControllers.EmployeeController.List` for a page size at or below zero describe the `Enumerable` model only.
  - The table yields its rows in insertion order. Without `ORDER BY`, SQL Server's order is unspecified.
- EF Core change tracking, concurrency tokens, and every exception beyond the two modelled are not modelled. The two modelled exceptions are an explicit id on insert and an update that affects no row; both answer `ErrorPage`.
- The `Employee` columns other than `Id`, `FullName`, `Department` and `Type` (position, salary with its `decimal(18,2)` type) take part in no logic here.
- `async`/`await`, HTTP request and response types, views, `ViewBag` select lists (`GetSelectLists`, page-size options) and `Console.WriteLine` logging.
- `Program.cs`: dependency-injection setup, the middleware pipeline, routing, the 30-minute session idle timeout, and the seeding of roles and of the administrator account.
- The session store's concurrency across requests. Each action is modelled as one sequential step.

## Findings

| source | as written | input that shows it | evidently intended | confidence | as-written member | corrected member |
|---|---|---|---|---|---|---|
| EmployeePortal/Models/EmployeeService.cs:45 | `Skip((PageNumber - 1) * PageSize)` multiplies in unchecked 32-bit `int` arithmetic | `PageNumber = 1073741825`, `PageSize = 4`, a table of at least 4 rows: the product 2^32 wraps to offset 0 and the first page is listed again | a page past the end is empty | medium, not executed | `Employees.AsWrittenPageWrapsToFirst` | `Employees.PagePastEndEmpty` |

The corrected offset (`Employees.Offset`) multiplies without overflow, as 64-bit arithmetic on two
`int` values does. `Employees.GetEmployees` uses it. Below the overflow bound the two offsets agree
(`Employees.OffsetAsWrittenAgrees`).

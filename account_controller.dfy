/**
 * `AccountController`: registration, which adds a user with the role "User" to the identity
 * store, and the session transitions of login and logout. Password checking belongs to the
 * identity library; whether a sign-in succeeded is an input here.
 */
module AccountControllers {
  import opened Wrappers
  import opened Text
  import opened Sessions
  import opened EmployeeControllers

  const DefaultRole: string := "User"
  const InvalidLoginAttempt: string := "Invalid Login Attempt"
  const UserNotFound: string := "User not found."

  /** `roles.FirstOrDefault() ?? "User"`: the first role, or "User" when there is none. */
  function RoleOf(roles: seq<string>): (r: string)
    ensures roles != [] ==> r == roles[0]
    ensures roles == [] ==> r == DefaultRole
  {
    if roles == [] then DefaultRole else roles[0]
  }

  /**
   * The key the identity store files a user under: its user name (the e-mail) upper-cased, as
   * the library's normaliser does, so that names differing only in case are one user.
   */
  function NormalizedName(email: string): string
  {
    Upper(email)
  }

  /** E-mails that differ only in the case of their letters name the same stored user. */
  lemma NormalizedNameIgnoresCase(a: string, b: string)
    requires Lower(a) == Lower(b)
    ensures NormalizedName(a) == NormalizedName(b)
  {
    UpperIgnoresCase(a, b);
  }

  /** The session a successful login leaves behind. */
  function SignedIn(email: string, roles: seq<string>): map<string, string>
  {
    map[UsernameKey := email, RoleKey := RoleOf(roles)]
  }

  /**
   * The session a login leaves counts as authenticated exactly when the e-mail and the role are
   * non-empty, and passes the Admin gate exactly when the user's first role is "Admin".
   */
  lemma SignedInAccess(email: string, roles: seq<string>)
    ensures SignedIn(email, roles).Keys == {UsernameKey, RoleKey}
    ensures IsAuthenticated(SignedIn(email, roles)) <==> email != "" && RoleOf(roles) != ""
    ensures AdminGate(SignedIn(email, roles)) == Granted <==> email != "" && roles != [] && roles[0] == AdminRole
  {
    var s := SignedIn(email, roles);
    assert s[UsernameKey] == email && s[RoleKey] == RoleOf(roles);
    if roles == [] {
      assert DefaultRole != AdminRole;
    }
  }

  /** A user who only has the role registration gives can sign in but never passes the Admin gate. */
  lemma RegisteredUserIsNotAdmin(email: string)
    requires email != ""
    ensures IsAuthenticated(SignedIn(email, [DefaultRole]))
    ensures AdminGate(SignedIn(email, [DefaultRole])) == Forbidden
  {
    SignedInAccess(email, [DefaultRole]);
  }

  /** What an account action answers. */
  datatype AccountResult =
    | RedirectToLoginPage
    | RedirectToEmployeeList
    | Redisplay(added: seq<string>)   // the form again, with the model errors this action added

  class AccountController {
    const session: Session
    /** The identity store: each user, by its normalized user name (the e-mail), with its roles in order. */
    var userRoles: map<string, seq<string>>

    constructor (session: Session, users: map<string, seq<string>>)
      ensures this.session == session && userRoles == users
    {
      this.session := session;
      userRoles := users;
    }

    /**
     * `Register` (POST). `createSucceeded` is the outcome of the identity library's `CreateAsync`
     * (password policy, a free user name, and its other checks). On success the new user is
     * filed under its normalized name with exactly the role "User"; otherwise the library's
     * error descriptions (`createErrors`) are shown and nothing is added.
     */
    method Register(modelValid: bool, email: string, createSucceeded: bool, createErrors: seq<string>)
      returns (r: AccountResult)
      modifies this
      ensures !modelValid ==> r == Redisplay([]) && userRoles == old(userRoles)
      ensures modelValid && createSucceeded ==>
                r == RedirectToLoginPage && userRoles == old(userRoles)[NormalizedName(email) := [DefaultRole]]
      ensures modelValid && !createSucceeded ==>
                r == Redisplay(createErrors) && userRoles == old(userRoles)
    {
      if !modelValid {
        return Redisplay([]);
      }
      if createSucceeded {
        // `CreateAsync` adds the user without roles, then `AddToRoleAsync` gives it "User".
        var key := NormalizedName(email);
        userRoles := userRoles[key := []];
        assert userRoles[key] + [DefaultRole] == [DefaultRole];
        userRoles := userRoles[key := userRoles[key] + [DefaultRole]];
        return RedirectToLoginPage;
      }
      r := Redisplay(createErrors);
    }

    /**
     * `Login` (POST). A successful sign-in clears the session first; the user is then looked up
     * by the normalized e-mail and the session ends as exactly the e-mail as typed and the
     * user's role. A failed sign-in leaves the session as it was.
     */
    method Login(modelValid: bool, email: string, signInSucceeded: bool) returns (r: AccountResult)
      modifies session
      ensures !modelValid ==> r == Redisplay([]) && session.values == old(session.values)
      ensures modelValid && !signInSucceeded ==>
                r == Redisplay([InvalidLoginAttempt]) && session.values == old(session.values)
      ensures modelValid && signInSucceeded && NormalizedName(email) !in userRoles ==>
                r == Redisplay([UserNotFound]) && session.values == map[]
      ensures modelValid && signInSucceeded && NormalizedName(email) in userRoles ==>
                r == RedirectToEmployeeList && session.values == SignedIn(email, userRoles[NormalizedName(email)])
    {
      if !modelValid {
        return Redisplay([]);
      }
      if signInSucceeded {
        session.Clear();
        var key := NormalizedName(email);
        if key !in userRoles {
          return Redisplay([UserNotFound]);
        }
        var role := RoleOf(userRoles[key]);
        session.SetString(UsernameKey, email);
        session.SetString(RoleKey, role);
        return RedirectToEmployeeList;
      }
      r := Redisplay([InvalidLoginAttempt]);
    }

    /** `Logout`: the session ends empty whatever it held, so a second logout changes nothing. */
    method Logout() returns (r: AccountResult)
      modifies session
      ensures session.values == map[] && r == RedirectToLoginPage
    {
      session.Clear();
      r := RedirectToLoginPage;
    }
  }
}

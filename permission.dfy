// Role checks applied to requests before they reach a controller
// (backend/src/middleware/permission.ts). A middleware either lets the
// request proceed (it calls `next()`) or answers it with a status code and a
// message and stops there; the verdict says which.

module Permission {
  import opened Wrappers

  /** The four roles a user can hold. */
  datatype Role = Admin | DeptManager | ProjectManager | Employee

  /** The identity an authenticated request carries (the decoded token). */
  datatype Principal = Principal(userId: int, username: string, role: Role, deptId: int)

  /**
   * What a middleware does with a request: pass it on to the next handler,
   * or answer `{ success: false, message }` with the given status and never
   * call the next handler.
   */
  datatype Verdict = Proceed | Reject(status: nat, message: string)

  const NotAuthenticated: string := "未认证，请先登录"
  const NoPermission: string := "您无此操作权限，请联系管理员"

  const AllRoles: seq<Role> := [Admin, DeptManager, ProjectManager, Employee]

  /**
   * `checkPermission(allowedRoles)`: an unauthenticated request is answered
   * 401, a user whose role is not listed 403, and every other request proceeds.
   */
  function CheckPermission(allowed: seq<Role>, user: Option<Principal>): (v: Verdict)
    ensures v == Proceed <==> user.Some? && user.value.role in allowed
    ensures v.Reject? && v.status == 401 <==> user.None?
    ensures v.Reject? && v.status == 403 <==> user.Some? && user.value.role !in allowed
    ensures v.Reject? ==> v.message == (if v.status == 401 then NotAuthenticated else NoPermission)
  {
    if user.None? then Reject(401, NotAuthenticated)
    else if user.value.role !in allowed then Reject(403, NoPermission)
    else Proceed
  }

  /** `isAdmin`: only administrators. */
  function IsAdmin(user: Option<Principal>): (v: Verdict)
    ensures v == Proceed <==> user.Some? && user.value.role == Admin
    ensures user.None? ==> v == Reject(401, NotAuthenticated)
  {
    CheckPermission([Admin], user)
  }

  /** `isAdminOrDeptManager`: administrators and department managers. */
  function IsAdminOrDeptManager(user: Option<Principal>): (v: Verdict)
    ensures v == Proceed <==> user.Some? && (user.value.role == Admin || user.value.role == DeptManager)
    ensures user.None? ==> v == Reject(401, NotAuthenticated)
  {
    CheckPermission([Admin, DeptManager], user)
  }

  /** `isAdminOrManager`: every role except employee. */
  function IsAdminOrManager(user: Option<Principal>): (v: Verdict)
    ensures v == Proceed <==> user.Some? && user.value.role != Employee
    ensures user.None? ==> v == Reject(401, NotAuthenticated)
  {
    if user.Some? then
      ManagerRoles(user.value.role);
      CheckPermission([Admin, DeptManager, ProjectManager], user)
    else CheckPermission([Admin, DeptManager, ProjectManager], user)
  }

  lemma ManagerRoles(r: Role)
    ensures r in [Admin, DeptManager, ProjectManager] <==> r != Employee
  {
    match r
    case Admin => assert [Admin, DeptManager, ProjectManager][0] == r;
    case DeptManager => assert [Admin, DeptManager, ProjectManager][1] == r;
    case ProjectManager => assert [Admin, DeptManager, ProjectManager][2] == r;
    case Employee =>
  }

  /**
   * `canEditProject`: the project id in the route is parsed but not used;
   * administrators proceed, and so does every other authenticated user.
   */
  function CanEditProject(user: Option<Principal>, projectIdParam: string): (v: Verdict)
    ensures v == Proceed <==> user.Some?
    ensures user.None? ==> v == Reject(401, NotAuthenticated)
  {
    if user.None? then Reject(401, NotAuthenticated)
    else if user.value.role == Admin then Proceed
    else Proceed
  }

  /** `canDeleteProject` is the `isAdmin` middleware itself. */
  function CanDeleteProject(user: Option<Principal>): (v: Verdict)
    ensures v == Proceed <==> user.Some? && user.value.role == Admin
    ensures user.None? ==> v == Reject(401, NotAuthenticated)
  {
    IsAdmin(user)
  }

  // ---------------------------------------------------------------- lemmas

  /**
   * Listing more roles never turns away a request that was let through, and
   * can change an answer only from 403 to proceeding.
   */
  lemma MoreRolesAdmitMore(small: seq<Role>, large: seq<Role>, user: Option<Principal>)
    requires forall r :: r in small ==> r in large
    ensures CheckPermission(small, user) == Proceed ==> CheckPermission(large, user) == Proceed
    ensures CheckPermission(large, user) == CheckPermission(small, user)
      || (CheckPermission(small, user) == Reject(403, NoPermission) && CheckPermission(large, user) == Proceed)
  {
  }

  /** Only the set of listed roles matters, not their order or repetitions. */
  lemma SameRolesSameVerdict(a: seq<Role>, b: seq<Role>, user: Option<Principal>)
    requires forall r :: r in a <==> r in b
    ensures CheckPermission(a, user) == CheckPermission(b, user)
  {
    MoreRolesAdmitMore(a, b, user);
    MoreRolesAdmitMore(b, a, user);
  }

  /** The presets are nested: each admits everyone the previous one admits. */
  lemma PresetsNested(user: Option<Principal>)
    ensures IsAdmin(user) == Proceed ==> IsAdminOrDeptManager(user) == Proceed
    ensures IsAdminOrDeptManager(user) == Proceed ==> IsAdminOrManager(user) == Proceed
    ensures IsAdminOrManager(user) == Proceed ==> CanEditProject(user, "") == Proceed
  {
  }

  /**
   * Editing a project admits exactly what the role check over all four roles
   * admits, whatever the project id.
   */
  lemma CanEditIsAnyRole(user: Option<Principal>, projectIdParam: string)
    ensures CanEditProject(user, projectIdParam) == CheckPermission(AllRoles, user)
  {
    if user.Some? {
      var r := user.value.role;
      assert r in AllRoles by {
        match r
        case Admin => assert AllRoles[0] == r;
        case DeptManager => assert AllRoles[1] == r;
        case ProjectManager => assert AllRoles[2] == r;
        case Employee => assert AllRoles[3] == r;
      }
    }
  }

  /** An employee is turned away by every preset role check with 403. */
  lemma EmployeeForbidden(user: Principal)
    requires user.role == Employee
    ensures IsAdmin(Some(user)) == Reject(403, NoPermission)
    ensures IsAdminOrDeptManager(Some(user)) == Reject(403, NoPermission)
    ensures IsAdminOrManager(Some(user)) == Reject(403, NoPermission)
    ensures CanDeleteProject(Some(user)) == Reject(403, NoPermission)
  {
  }
}

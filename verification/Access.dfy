/** Effective authorisation of one principal over case records (src/access.js). */
module Access {
  import opened Options

  /** Users, teams, clients and cases are addressed by uuid. */
  type Uuid = nat

  /** A permission such as "cases.view", or the wildcard "*". */
  type Permission = string

  type Module = string

  const ACCESS_MODULES: set<Module> := {
    "cases", "documents", "tasks", "deadlines", "clients", "billing", "audit", "reports",
    "imports", "portal", "users", "workflows", "settings", "access", "dashboard"
  }

  const CLIENT_ROLES: set<string> := {
    "client_owner", "client_collaborator", "employer_portal", "beneficiary_portal"
  }

  datatype Scope =
    | Global
    | TeamScope
    | Assigned
    | ExplicitClient
    | ExplicitCategory
    | ExplicitCase
    | ClientSelf
  {
    /** Wider scopes rank higher. */
    function Rank(): nat {
      match this
      case Global => 6
      case TeamScope => 5
      case Assigned => 4
      case ExplicitClient => 3
      case ExplicitCategory => 2
      case ExplicitCase => 1
      case ClientSelf => 0
    }
  }

  /** Service code to practice area. No service has the empty code. */
  type Catalogue = m: map<string, string> | "" !in m witness map[]

  /** What a record grant or restriction is about. Keys are never empty. */
  datatype Target =
    | OnCase(id: Uuid)
    | OnClient(id: Uuid)
    | OnCategory(key: string)
    | OnService(key: string)

  /** The columns of a case row that decide access. An absent column is NULL. */
  datatype CaseRow = CaseRow(
    id: Uuid,
    clientId: Option<Uuid>,
    teamId: Option<Uuid>,
    assignedUserId: Option<Uuid>,
    assignedTo: string,
    serviceCode: Option<string>)

  /** What a record grant allows: everything, or the listed permissions. */
  datatype Allowance = Everything | Only(permissions: set<Permission>)

  datatype Resolved = Resolved(
    userId: Option<Uuid>,
    labels: set<string>,
    isOwner: bool,
    isClientPrincipal: bool,
    permissions: set<Permission>,
    restrictions: set<Permission>,
    scopes: map<Module, Scope>,
    teamIds: set<Uuid>,
    clientIds: set<Uuid>,
    assignedCaseIds: set<Uuid>,
    granted: set<Target>,
    restricted: set<Target>,
    allowances: map<Target, Allowance>)

  function FirstSegment(s: string): string {
    if s == "" || s[0] == '.' then "" else [s[0]] + FirstSegment(s[1..])
  }

  /** The module a permission is scoped by: its first dotted segment if that
      names a module, else the dashboard. */
  function ModuleOf(permission: Permission): Module {
    var m := FirstSegment(permission);
    if m in ACCESS_MODULES then m else "dashboard"
  }

  function ScopeFor(a: Resolved, m: Module): Scope {
    if a.isOwner then Global
    else if m in a.scopes then a.scopes[m]
    else if a.isClientPrincipal then ClientSelf
    else Global
  }

  predicate HasPermission(a: Resolved, p: Permission) {
    a.isOwner || (p !in a.restrictions && ("*" in a.permissions || p in a.permissions))
  }

  predicate Allows(a: Resolved, t: Target, p: Permission) {
    t in a.allowances && (a.allowances[t].Everything? || p in a.allowances[t].permissions)
  }

  /** A NULL or empty service code is no code. */
  function CodeOf(row: CaseRow): Option<string> {
    if row.serviceCode.Some? && row.serviceCode.value != "" then row.serviceCode else None
  }

  function CategoryOf(catalogue: Catalogue, row: CaseRow): Option<string> {
    var code := CodeOf(row);
    if code.Some? && code.value in catalogue && catalogue[code.value] != "" then Some(catalogue[code.value]) else None
  }

  /** Everything a record grant or restriction could name this row by. */
  function TargetsOf(catalogue: Catalogue, row: CaseRow): set<Target> {
    {OnCase(row.id)}
    + (if row.clientId.Some? then {OnClient(row.clientId.value)} else {})
    + (if CategoryOf(catalogue, row).Some? then {OnCategory(CategoryOf(catalogue, row).value)} else {})
    + (if CodeOf(row).Some? then {OnService(CodeOf(row).value)} else {})
  }

  predicate AssignedById(a: Resolved, row: CaseRow) {
    row.id in a.assignedCaseIds || (row.assignedUserId.Some? && row.assignedUserId == a.userId)
  }

  /** Free-text assignment. `assignedTo` is the trimmed, lower-cased column and
      `labels` the principal's lower-cased e-mail address and display name. */
  predicate AssignedByLabel(a: Resolved, row: CaseRow) {
    row.assignedTo != "" && row.assignedTo in a.labels
  }

  predicate InScope(a: Resolved, row: CaseRow, scope: Scope) {
    match scope
    case Global => true
    case TeamScope => row.teamId.Some? && row.teamId.value in a.teamIds
    case Assigned => AssignedById(a, row) || AssignedByLabel(a, row)
    case ClientSelf => row.clientId.Some? && row.clientId.value in a.clientIds
    case ExplicitClient => false
    case ExplicitCategory => false
    case ExplicitCase => false
  }

  /** The row predicate: may this principal use this permission on this case? */
  predicate CanAccessCase(catalogue: Catalogue, a: Resolved, row: CaseRow, p: Permission) {
    if a.isOwner then true
    else if TargetsOf(catalogue, row) * a.restricted != {} then false
    else if exists t | t in TargetsOf(catalogue, row) :: Allows(a, t, p) then true
    else HasPermission(a, p) && InScope(a, row, ScopeFor(a, ModuleOf(p)))
  }

  /** The rows of a listing the principal may see, in order. */
  function FilterAccessible(catalogue: Catalogue, a: Resolved, rows: seq<CaseRow>, p: Permission): seq<CaseRow> {
    if a.isOwner || rows == [] then rows
    else (if CanAccessCase(catalogue, a, rows[0], p) then [rows[0]] else [])
         + FilterAccessible(catalogue, a, rows[1..], p)
  }
}

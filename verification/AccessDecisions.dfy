/** What the resolver, the row predicate and the listing query decide, said of the
    stored policies, the record grants and the row alone (src/access.js:51-110,
    123-434). */
module AccessDecisions {
  import opened Access
  import opened AccessResolver
  import CaseFilter
  import opened Options

  // ------------------------------------------------------------------
  // Modules and scopes
  // ------------------------------------------------------------------

  lemma {:induction false} FirstSegmentOf(m: string, rest: string)
    requires '.' !in m
    ensures FirstSegment(m) == m && FirstSegment(m + "." + rest) == m
  {
    if m != "" {
      FirstSegmentOf(m[1..], rest);
      assert (m + "." + rest)[1..] == m[1..] + "." + rest;
    }
  }

  /** A permission belongs to the module it names before its first dot, if there
      is such a module, and else to the dashboard. */
  lemma ModuleNamed(m: string, rest: string)
    requires '.' !in m
    ensures ModuleOf(m) == ModuleOf(m + "." + rest) ==
      if m in ["cases", "documents", "tasks", "deadlines", "clients", "billing", "audit", "reports", "imports",
               "portal", "users", "workflows", "settings", "access", "dashboard"]
      then m else "dashboard"
  {
    FirstSegmentOf(m, rest);
  }

  const WIDEST_TO_NARROWEST: seq<Scope> :=
    [Global, TeamScope, Assigned, ExplicitClient, ExplicitCategory, ExplicitCase, ClientSelf]

  /** The ranks order the scopes as they are listed. */
  lemma WiderExactly(i: nat, j: nat)
    requires i < 7 && j < 7
    ensures Wider(WIDEST_TO_NARROWEST[i], WIDEST_TO_NARROWEST[j]) <==> i < j
  {
  }

  // ------------------------------------------------------------------
  // Stored policies
  // ------------------------------------------------------------------

  /** The policy stored for a subject is the first listed. */
  ghost predicate FirstFor(policies: seq<Policy>, subject: Subject, i: int) {
    0 <= i < |policies| && policies[i].subject == subject && forall j | 0 <= j < i :: policies[j].subject != subject
  }

  ghost predicate StoredFor(policies: seq<Policy>, subject: Subject, policy: Policy) {
    exists i :: FirstFor(policies, subject, i) && policies[i] == policy
  }

  predicate Mentions(policy: Policy, p: Permission) {
    p in policy.grants || p in policy.restrictions
  }

  ghost predicate SilentOn(policies: seq<Policy>, subject: Subject, p: Permission) {
    forall policy | StoredFor(policies, subject, policy) :: !Mentions(policy, p)
  }

  lemma {:induction false} FoundFirst(policies: seq<Policy>, subject: Subject)
    ensures forall policy :: StoredFor(policies, subject, policy) <==> FindPolicy(policies, subject) == Some(policy)
  {
    if policies != [] {
      var rest := policies[1..];
      FoundFirst(rest, subject);
      if policies[0].subject == subject {
        assert FirstFor(policies, subject, 0);
        assert forall i | FirstFor(policies, subject, i) :: i == 0;
      } else {
        assert forall i :: FirstFor(rest, subject, i) <==> FirstFor(policies, subject, i + 1) by {
          assert forall i | 0 < i < |policies| :: policies[i] == rest[i - 1];
        }
        forall policy ensures StoredFor(policies, subject, policy) <==> StoredFor(rest, subject, policy) {
          if StoredFor(rest, subject, policy) {
            var i :| FirstFor(rest, subject, i) && rest[i] == policy;
            assert FirstFor(policies, subject, i + 1) && policies[i + 1] == policy;
          }
          if StoredFor(policies, subject, policy) {
            var i :| FirstFor(policies, subject, i) && policies[i] == policy;
            assert FirstFor(rest, subject, i - 1) && rest[i - 1] == policy;
          }
        }
      }
    }
  }

  lemma LayerWord(policies: seq<Policy>, subject: Subject, p: Permission)
    ensures SilentOn(policies, subject, p) ==> LastWord(OneLayer(policies, subject), p) == Silent
    ensures forall policy | StoredFor(policies, subject, policy) && Mentions(policy, p) ::
      LastWord(OneLayer(policies, subject), p) == Says(policy, p) != Silent
  {
    FoundFirst(policies, subject);
    assert forall policy: Policy :: [policy][..0] == [];
  }

  // ------------------------------------------------------------------
  // Roles
  // ------------------------------------------------------------------

  lemma {:induction false} RolesSilent(policies: seq<Policy>, roles: seq<string>, p: Permission)
    requires forall role | role in roles :: SilentOn(policies, OfRole(role), p)
    ensures LastWord(RoleLayers(policies, roles), p) == Silent
  {
    if roles != [] {
      var init, last := roles[..|roles| - 1], roles[|roles| - 1];
      RolesSilent(policies, init, p);
      LayerWord(policies, OfRole(last), p);
      LastWordAppend(RoleLayers(policies, init), OneLayer(policies, OfRole(last)), p);
    }
  }

  lemma {:induction false} RoleSpeaks(policies: seq<Policy>, roles: seq<string>, k: nat, policy: Policy, p: Permission)
    requires k < |roles| && StoredFor(policies, OfRole(roles[k]), policy) && Mentions(policy, p)
    requires forall j | k < j < |roles| :: SilentOn(policies, OfRole(roles[j]), p)
    ensures LastWord(RoleLayers(policies, roles), p) == Says(policy, p) != Silent
  {
    var init, last := roles[..|roles| - 1], roles[|roles| - 1];
    LayerWord(policies, OfRole(last), p);
    LastWordAppend(RoleLayers(policies, init), OneLayer(policies, OfRole(last)), p);
    if k < |init| {
      assert SilentOn(policies, OfRole(last), p);
      assert forall j | 0 <= j < |init| :: init[j] == roles[j];
      RoleSpeaks(policies, init, k, policy, p);
    }
  }

  // ------------------------------------------------------------------
  // Teams
  // ------------------------------------------------------------------

  /** Is the other team listed for the first time after this one is? */
  ghost predicate ListedAfter(teams: seq<Uuid>, team: Uuid, other: Uuid) {
    exists j :: 0 <= j < |teams| && teams[j] == other && other !in teams[..j] && team in teams[..j]
  }

  lemma ListedAfterStill(teams: seq<Uuid>, team: Uuid, other: Uuid)
    requires teams != [] && ListedAfter(teams[..|teams| - 1], team, other)
    ensures ListedAfter(teams, team, other)
  {
    var init := teams[..|teams| - 1];
    var j :| 0 <= j < |init| && init[j] == other && other !in init[..j] && team in init[..j];
    assert teams[..j] == init[..j] && teams[j] == other;
  }

  lemma {:induction false} DistinctListedAfter(teams: seq<Uuid>, i: nat, j: nat)
    requires i < j < |Distinct(teams)|
    ensures ListedAfter(teams, Distinct(teams)[i], Distinct(teams)[j])
  {
    var init, last := teams[..|teams| - 1], teams[|teams| - 1];
    DistinctElements(init);
    if j < |Distinct(init)| {
      DistinctListedAfter(init, i, j);
      ListedAfterStill(teams, Distinct(init)[i], Distinct(init)[j]);
    } else {
      assert Distinct(init)[i] in Distinct(init) && last !in init;
      assert teams[..|teams| - 1] == init;
    }
  }

  lemma {:induction false} TeamsSilent(policies: seq<Policy>, teams: seq<Uuid>, p: Permission)
    requires forall team | team in teams :: SilentOn(policies, OfTeam(team), p)
    ensures LastWord(TeamLayers(policies, teams), p) == Silent
  {
    if teams != [] {
      var init, last := teams[..|teams| - 1], teams[|teams| - 1];
      TeamsSilent(policies, init, p);
      LayerWord(policies, OfTeam(last), p);
      LastWordAppend(TeamLayers(policies, init), OneLayer(policies, OfTeam(last)), p);
    }
  }

  lemma {:induction false} TeamSpeaks(policies: seq<Policy>, teams: seq<Uuid>, k: nat, policy: Policy, p: Permission)
    requires k < |teams| && StoredFor(policies, OfTeam(teams[k]), policy) && Mentions(policy, p)
    requires forall j | k < j < |teams| :: SilentOn(policies, OfTeam(teams[j]), p)
    ensures LastWord(TeamLayers(policies, teams), p) == Says(policy, p) != Silent
  {
    var init, last := teams[..|teams| - 1], teams[|teams| - 1];
    LayerWord(policies, OfTeam(last), p);
    LastWordAppend(TeamLayers(policies, init), OneLayer(policies, OfTeam(last)), p);
    if k < |init| {
      assert SilentOn(policies, OfTeam(last), p);
      assert forall j | 0 <= j < |init| :: init[j] == teams[j];
      TeamSpeaks(policies, init, k, policy, p);
    }
  }

  // ------------------------------------------------------------------
  // Which policy decides a permission
  // ------------------------------------------------------------------

  ghost predicate PersonSilent(q: Request, p: Permission) {
    q.principal.id.Some? ==> SilentOn(q.policies, OfUser(q.principal.id.value), p)
  }

  ghost predicate TeamsAllSilent(q: Request, p: Permission) {
    forall team | team in q.teamIds :: SilentOn(q.policies, OfTeam(team), p)
  }

  ghost predicate RolesAllSilent(q: Request, p: Permission) {
    forall role | role in q.principal.roles :: SilentOn(q.policies, OfRole(role), p)
  }

  ghost predicate PersonDecides(q: Request, policy: Policy, p: Permission) {
    q.principal.id.Some? && StoredFor(q.policies, OfUser(q.principal.id.value), policy) && Mentions(policy, p)
  }

  ghost predicate TeamDecides(q: Request, team: Uuid, policy: Policy, p: Permission) {
    && team in q.teamIds && StoredFor(q.policies, OfTeam(team), policy) && Mentions(policy, p)
    && (forall other | ListedAfter(q.teamIds, team, other) :: SilentOn(q.policies, OfTeam(other), p))
    && PersonSilent(q, p)
  }

  ghost predicate RoleDecides(q: Request, k: nat, policy: Policy, p: Permission) {
    && k < |q.principal.roles| && StoredFor(q.policies, OfRole(q.principal.roles[k]), policy) && Mentions(policy, p)
    && (forall j | k < j < |q.principal.roles| :: SilentOn(q.policies, OfRole(q.principal.roles[j]), p))
    && TeamsAllSilent(q, p) && PersonSilent(q, p)
  }

  /** The policy that speaks last: the person's, else that of the team listed
      last, else that of the role listed last. */
  ghost predicate Decides(q: Request, policy: Policy, p: Permission) {
    || PersonDecides(q, policy, p)
    || (exists team :: TeamDecides(q, team, policy, p))
    || (exists k :: RoleDecides(q, k, policy, p))
  }

  lemma PersonWord(q: Request, p: Permission)
    ensures PersonSilent(q, p) ==> LastWord(UserLayer(q.policies, q.principal.id), p) == Silent
    ensures forall policy | PersonDecides(q, policy, p) ::
      LastWord(UserLayer(q.policies, q.principal.id), p) == Says(policy, p) != Silent
  {
    if q.principal.id.Some? {
      LayerWord(q.policies, OfUser(q.principal.id.value), p);
    }
  }

  lemma TeamsWord(q: Request, p: Permission)
    ensures TeamsAllSilent(q, p) ==> LastWord(TeamLayers(q.policies, Distinct(q.teamIds)), p) == Silent
  {
    DistinctElements(q.teamIds);
    if TeamsAllSilent(q, p) {
      TeamsSilent(q.policies, Distinct(q.teamIds), p);
    }
  }

  lemma TeamWord(q: Request, team: Uuid, policy: Policy, p: Permission)
    requires TeamDecides(q, team, policy, p)
    ensures LastWord(TeamLayers(q.policies, Distinct(q.teamIds)), p) == Says(policy, p) != Silent
  {
    DistinctElements(q.teamIds);
    var teams := Distinct(q.teamIds);
    var k :| 0 <= k < |teams| && teams[k] == team;
    forall j | k < j < |teams| ensures SilentOn(q.policies, OfTeam(teams[j]), p) {
      DistinctListedAfter(q.teamIds, k, j);
    }
    TeamSpeaks(q.policies, teams, k, policy, p);
  }

  lemma WordOf(q: Request, p: Permission)
    ensures var user, teams, roles := LastWord(UserLayer(q.policies, q.principal.id), p),
        LastWord(TeamLayers(q.policies, Distinct(q.teamIds)), p), LastWord(RoleLayers(q.policies, q.principal.roles), p);
      LastWord(Layers(q), p) == if user != Silent then user else if teams != Silent then teams else roles
  {
    var roles, teams := RoleLayers(q.policies, q.principal.roles), TeamLayers(q.policies, Distinct(q.teamIds));
    LastWordAppend(roles + teams, UserLayer(q.policies, q.principal.id), p);
    LastWordAppend(roles, teams, p);
  }

  lemma DecidedWord(q: Request, policy: Policy, p: Permission)
    requires Decides(q, policy, p)
    ensures LastWord(Layers(q), p) == Says(policy, p) != Silent
  {
    WordOf(q, p);
    PersonWord(q, p);
    TeamsWord(q, p);
    if !PersonDecides(q, policy, p) {
      if team :| TeamDecides(q, team, policy, p) {
        TeamWord(q, team, policy, p);
      } else {
        var k :| RoleDecides(q, k, policy, p);
        RoleSpeaks(q.policies, q.principal.roles, k, policy, p);
      }
    }
  }

  /** The policy that speaks last on a permission decides it: restricted if the
      policy restricts it, whatever else it grants, and held otherwise. */
  lemma DecidedBy(defaults: RoleDefaults, q: Request, policy: Policy, p: Permission)
    requires Decides(q, policy, p)
    ensures var r := Resolution(defaults, q);
      && (p in r.permissions <==> p !in policy.restrictions)
      && (p in r.restrictions <==> p in policy.restrictions)
  {
    PermissionDecided(defaults, q, p);
    DecidedWord(q, policy, p);
  }

  /** If no policy mentions it the role defaults decide, and nothing restricts it. */
  lemma DecidedByDefaults(defaults: RoleDefaults, q: Request, p: Permission)
    requires PersonSilent(q, p) && TeamsAllSilent(q, p) && RolesAllSilent(q, p)
    ensures var r := Resolution(defaults, q);
      && (p in r.permissions <==> exists role | role in q.principal.roles && role in defaults :: p in defaults[role])
      && p !in r.restrictions
  {
    PermissionDecided(defaults, q, p);
    WordOf(q, p);
    PersonWord(q, p);
    TeamsWord(q, p);
    RolesSilent(q.policies, q.principal.roles, p);
  }

  // ------------------------------------------------------------------
  // Which scope is recorded
  // ------------------------------------------------------------------

  ghost predicate Gives(policies: seq<Policy>, subject: Subject, m: Module, s: Scope) {
    exists policy :: StoredFor(policies, subject, policy) && m in policy.scopes && policy.scopes[m] == s
  }

  ghost predicate PersonGives(q: Request, m: Module, s: Scope) {
    q.principal.id.Some? && Gives(q.policies, OfUser(q.principal.id.value), m, s)
  }

  ghost predicate TeamsGive(q: Request, m: Module, s: Scope) {
    exists team | team in q.teamIds :: Gives(q.policies, OfTeam(team), m, s)
  }

  ghost predicate RolesGive(q: Request, m: Module, s: Scope) {
    exists role | role in q.principal.roles :: Gives(q.policies, OfRole(role), m, s)
  }

  ghost predicate AtLeastAsWide(s: Scope, t: Scope) {
    exists i, j | 0 <= i <= j < 7 :: WIDEST_TO_NARROWEST[i] == s && WIDEST_TO_NARROWEST[j] == t
  }

  lemma NotWider(s: Scope, t: Scope)
    ensures !Wider(t, s) <==> AtLeastAsWide(s, t)
  {
    var i, j := Place(s), Place(t);
    WiderExactly(j, i);
  }

  function Place(s: Scope): (i: nat)
    ensures i < 7 && WIDEST_TO_NARROWEST[i] == s
    ensures forall j | 0 <= j < 7 && WIDEST_TO_NARROWEST[j] == s :: j == i
  {
    match s
    case Global => 0
    case TeamScope => 1
    case Assigned => 2
    case ExplicitClient => 3
    case ExplicitCategory => 4
    case ExplicitCase => 5
    case ClientSelf => 6
  }

  lemma {:induction false} RoleLayerMembers(policies: seq<Policy>, roles: seq<string>, policy: Policy)
    ensures policy in RoleLayers(policies, roles) <==>
      exists role | role in roles :: FindPolicy(policies, OfRole(role)) == Some(policy)
  {
    if roles != [] {
      var init, last := roles[..|roles| - 1], roles[|roles| - 1];
      RoleLayerMembers(policies, init, policy);
      assert roles == init + [last];
      assert forall role :: role in roles <==> role in init || role == last;
    }
  }

  lemma PersonScopes(q: Request, m: Module)
    ensures var user := UserLayer(q.policies, q.principal.id);
      forall s :: PersonGives(q, m, s) <==> user != [] && m in user[0].scopes && user[0].scopes[m] == s
  {
    if q.principal.id.Some? {
      FoundFirst(q.policies, OfUser(q.principal.id.value));
    }
  }

  lemma TeamScopes(q: Request, m: Module, s: Scope)
    ensures TeamsGive(q, m, s) <==>
      exists policy | policy in TeamLayers(q.policies, Distinct(q.teamIds)) :: m in policy.scopes && policy.scopes[m] == s
  {
    var layers := TeamLayers(q.policies, Distinct(q.teamIds));
    DistinctElements(q.teamIds);
    if policy :| policy in layers && m in policy.scopes && policy.scopes[m] == s {
      TeamLayerMembers(q.policies, Distinct(q.teamIds), policy);
      var team :| team in Distinct(q.teamIds) && FindPolicy(q.policies, OfTeam(team)) == Some(policy);
      FoundFirst(q.policies, OfTeam(team));
      assert Gives(q.policies, OfTeam(team), m, s);
    }
    if team :| team in q.teamIds && Gives(q.policies, OfTeam(team), m, s) {
      FoundFirst(q.policies, OfTeam(team));
      var policy :| StoredFor(q.policies, OfTeam(team), policy) && m in policy.scopes && policy.scopes[m] == s;
      TeamLayerMembers(q.policies, Distinct(q.teamIds), policy);
    }
  }

  lemma RoleScopes(q: Request, m: Module, s: Scope)
    ensures RolesGive(q, m, s) <==>
      exists policy | policy in RoleLayers(q.policies, q.principal.roles) :: m in policy.scopes && policy.scopes[m] == s
  {
    var layers := RoleLayers(q.policies, q.principal.roles);
    if policy :| policy in layers && m in policy.scopes && policy.scopes[m] == s {
      RoleLayerMembers(q.policies, q.principal.roles, policy);
      var role :| role in q.principal.roles && FindPolicy(q.policies, OfRole(role)) == Some(policy);
      FoundFirst(q.policies, OfRole(role));
      assert Gives(q.policies, OfRole(role), m, s);
    }
    if role :| role in q.principal.roles && Gives(q.policies, OfRole(role), m, s) {
      FoundFirst(q.policies, OfRole(role));
      var policy :| StoredFor(q.policies, OfRole(role), policy) && m in policy.scopes && policy.scopes[m] == s;
      RoleLayerMembers(q.policies, q.principal.roles, policy);
    }
  }

  ghost predicate WidestOfTeams(q: Request, m: Module, s: Scope) {
    TeamsGive(q, m, s) && forall t | TeamsGive(q, m, t) :: AtLeastAsWide(s, t)
  }

  ghost predicate WidestOfRoles(q: Request, m: Module, s: Scope) {
    RolesGive(q, m, s) && forall t | RolesGive(q, m, t) :: AtLeastAsWide(s, t)
  }

  lemma TeamsWidest(q: Request, m: Module)
    ensures var layers := TeamLayers(q.policies, Distinct(q.teamIds));
      && ((exists s :: TeamsGive(q, m, s)) <==> exists policy | policy in layers :: m in policy.scopes)
      && forall s | IsWidest(layers, m, s) :: WidestOfTeams(q, m, s)
  {
    var layers := TeamLayers(q.policies, Distinct(q.teamIds));
    forall s
      ensures TeamsGive(q, m, s) <==> exists policy | policy in layers :: m in policy.scopes && policy.scopes[m] == s
    {
      TeamScopes(q, m, s);
    }
    if policy :| policy in layers && m in policy.scopes {
      assert TeamsGive(q, m, policy.scopes[m]);
    }
    hide TeamsGive, TeamLayers, AtLeastAsWide;
    forall s, t | IsWidest(layers, m, s) && TeamsGive(q, m, t) ensures AtLeastAsWide(s, t) {
      NotWider(s, t);
    }
  }

  lemma RolesWidest(q: Request, m: Module)
    ensures var layers := RoleLayers(q.policies, q.principal.roles);
      && ((exists s :: RolesGive(q, m, s)) <==> exists policy | policy in layers :: m in policy.scopes)
      && forall s | IsWidest(layers, m, s) :: WidestOfRoles(q, m, s)
  {
    var layers := RoleLayers(q.policies, q.principal.roles);
    forall s
      ensures RolesGive(q, m, s) <==> exists policy | policy in layers :: m in policy.scopes && policy.scopes[m] == s
    {
      RoleScopes(q, m, s);
    }
    if policy :| policy in layers && m in policy.scopes {
      assert RolesGive(q, m, policy.scopes[m]);
    }
    hide RolesGive, RoleLayers, AtLeastAsWide;
    forall s, t | IsWidest(layers, m, s) && RolesGive(q, m, t) ensures AtLeastAsWide(s, t) {
      NotWider(s, t);
    }
  }

  /** The scope of a module is the one the person's policy gives, else the widest
      their teams' policies give, else the widest their roles' give, else there is
      none. */
  lemma ScopeRecorded(defaults: RoleDefaults, q: Request, m: Module)
    ensures var scopes := Resolution(defaults, q).scopes;
      if exists s :: PersonGives(q, m, s) then m in scopes && PersonGives(q, m, scopes[m])
      else if exists s :: TeamsGive(q, m, s) then m in scopes && WidestOfTeams(q, m, scopes[m])
      else if exists s :: RolesGive(q, m, s) then m in scopes && WidestOfRoles(q, m, scopes[m])
      else m !in scopes
  {
    ScopeDecided(defaults, q, m);
    PersonScopes(q, m);
    TeamsWidest(q, m);
    RolesWidest(q, m);
    hide *;
    var user := UserLayer(q.policies, q.principal.id);
    assert user != [] && m in user[0].scopes ==> PersonGives(q, m, user[0].scopes[m]);
  }

  // ------------------------------------------------------------------
  // One case
  // ------------------------------------------------------------------

  predicate Owner(q: Request) {
    "owner" in q.principal.roles || q.principal.wildcard || q.principal.internal
  }

  /** Does a record grant or restriction on this target mean this case? */
  predicate Names(catalogue: Catalogue, t: Target, row: CaseRow) {
    match t
    case OnCase(id) => row.id == id
    case OnClient(id) => row.clientId == Some(id)
    case OnService(code) => code != "" && row.serviceCode == Some(code)
    case OnCategory(area) =>
      area != "" && row.serviceCode.Some? && row.serviceCode.value in catalogue && catalogue[row.serviceCode.value] == area
  }

  predicate ForPrincipal(q: Request, g: RecordGrant) {
    || (g.subject.OfUser? && q.principal.id == Some(g.subject.user))
    || (g.subject.OfTeam? && g.subject.team in q.teamIds)
  }

  /** Some restriction takes the case away. */
  ghost predicate Barred(catalogue: Catalogue, q: Request, row: CaseRow) {
    exists g | g in q.recordGrants ::
      ForPrincipal(q, g) && g.effect == Restricts && g.target.Some? && Names(catalogue, g.target.value, row)
  }

  /** The last grant to this principal on its target. */
  ghost predicate LastOnTarget(q: Request, k: int) {
    && 0 <= k < |q.recordGrants| && q.recordGrants[k].target.Some?
    && q.recordGrants[k].effect == Grants && ForPrincipal(q, q.recordGrants[k])
    && forall j | k < j < |q.recordGrants| && q.recordGrants[j].target == q.recordGrants[k].target ::
         !(q.recordGrants[j].effect == Grants && ForPrincipal(q, q.recordGrants[j]))
  }

  ghost predicate HandsOver(catalogue: Catalogue, q: Request, row: CaseRow, p: Permission, k: int) {
    && LastOnTarget(q, k) && Names(catalogue, q.recordGrants[k].target.value, row)
    && (q.recordGrants[k].permissions == [] || p in q.recordGrants[k].permissions)
  }

  /** Some grant hands the case over for this permission, or for all. */
  ghost predicate Handed(catalogue: Catalogue, q: Request, row: CaseRow, p: Permission) {
    exists k :: HandsOver(catalogue, q, row, p, k)
  }

  predicate MayUse(r: Resolved, p: Permission) {
    p !in r.restrictions && (p in r.permissions || "*" in r.permissions)
  }

  /** Everyone this principal acts for is a client. */
  predicate Portal(q: Request) {
    && q.principal.roles != []
    && forall role | role in q.principal.roles ::
         role in ["client_owner", "client_collaborator", "employer_portal", "beneficiary_portal"]
  }

  predicate OwnClient(q: Request, row: CaseRow) {
    row.clientId.Some? && row.clientId.value in q.clientIds
  }

  predicate ByAssignment(q: Request, row: CaseRow) {
    row.id in q.assignedCaseIds || (row.assignedUserId.Some? && row.assignedUserId == q.principal.id)
  }

  predicate ByLabel(q: Request, row: CaseRow) {
    row.assignedTo != "" && row.assignedTo in q.principal.labels
  }

  /** Does a recorded scope, or the lack of one, take in the case? */
  predicate Reaches(q: Request, scope: Option<Scope>, row: CaseRow) {
    match scope
    case None => Portal(q) ==> OwnClient(q, row)
    case Some(Global) => true
    case Some(TeamScope) => row.teamId.Some? && row.teamId.value in q.teamIds
    case Some(Assigned) => ByAssignment(q, row) || ByLabel(q, row)
    case Some(ClientSelf) => OwnClient(q, row)
    case Some(_) => false
  }

  ghost function Recorded(defaults: RoleDefaults, q: Request, m: Module): Option<Scope> {
    var scopes := Resolution(defaults, q).scopes;
    if m in scopes then Some(scopes[m]) else None
  }

  lemma NamesExactly(catalogue: Catalogue, t: Target, row: CaseRow)
    requires !(t.OnCategory? && t.key == "") && !(t.OnService? && t.key == "")
    ensures t in TargetsOf(catalogue, row) <==> Names(catalogue, t, row)
  {
  }

  lemma BarredExactly(defaults: RoleDefaults, catalogue: Catalogue, q: Request, row: CaseRow)
    ensures TargetsOf(catalogue, row) * Resolution(defaults, q).restricted != {} <==> Barred(catalogue, q, row)
  {
    var r := Resolution(defaults, q);
    var both := TargetsOf(catalogue, row) * r.restricted;
    assert r.restricted == RestrictedTargets(q, q.recordGrants);
    hide Resolution, TargetsOf;
    if t :| t in both {
      var g :| g in q.recordGrants && Addressed(q, g) && g.effect == Restricts && g.target.value == t;
      NamesExactly(catalogue, t, row);
      assert Barred(catalogue, q, row);
    }
    if Barred(catalogue, q, row) {
      var g :| g in q.recordGrants && ForPrincipal(q, g) && g.effect == Restricts && g.target.Some?
        && Names(catalogue, g.target.value, row);
      NamesExactly(catalogue, g.target.value, row);
      assert Addressed(q, g);
      assert g.target.value in both;
    }
  }

  lemma {:induction false} AllowanceFrom(q: Request, grants: seq<RecordGrant>, t: Target) returns (k: nat)
    requires t in Allowances(q, grants)
    ensures k < |grants| && Addressed(q, grants[k]) && grants[k].effect == Grants && grants[k].target == Some(t)
    ensures forall i | k < i < |grants| ::
      !(Addressed(q, grants[i]) && grants[i].effect == Grants && grants[i].target == Some(t))
  {
    var init, last := grants[..|grants| - 1], grants[|grants| - 1];
    if Addressed(q, last) && last.effect == Grants && last.target == Some(t) {
      k := |grants| - 1;
    } else {
      k := AllowanceFrom(q, init, t);
      assert forall i | 0 <= i < |init| :: init[i] == grants[i];
    }
  }

  lemma HandedExactly(defaults: RoleDefaults, catalogue: Catalogue, q: Request, row: CaseRow, p: Permission)
    ensures (exists t | t in TargetsOf(catalogue, row) :: Allows(Resolution(defaults, q), t, p)) <==>
      Handed(catalogue, q, row, p)
  {
    var r := Resolution(defaults, q);
    assert r.allowances == Allowances(q, q.recordGrants);
    if t :| t in TargetsOf(catalogue, row) && Allows(r, t, p) {
      HandedBy(catalogue, q, r, row, t, p);
    }
    if k :| HandsOver(catalogue, q, row, p, k) {
      AllowedBy(catalogue, q, r, row, k, p);
    }
  }

  lemma HandedBy(catalogue: Catalogue, q: Request, r: Resolved, row: CaseRow, t: Target, p: Permission)
    requires r.allowances == Allowances(q, q.recordGrants)
    requires t in TargetsOf(catalogue, row) && Allows(r, t, p)
    ensures Handed(catalogue, q, row, p)
  {
    hide Allowances;
    var k := AllowanceFrom(q, q.recordGrants, t);
    LastGrantDecides(q, q.recordGrants, k, t);
    NamesExactly(catalogue, t, row);
    hide TargetsOf, Names;
    assert LastOnTarget(q, k);
    assert HandsOver(catalogue, q, row, p, k);
  }

  lemma AllowedBy(catalogue: Catalogue, q: Request, r: Resolved, row: CaseRow, k: int, p: Permission)
    requires r.allowances == Allowances(q, q.recordGrants)
    requires HandsOver(catalogue, q, row, p, k)
    ensures exists t | t in TargetsOf(catalogue, row) :: Allows(r, t, p)
  {
    hide Allowances;
    var t := q.recordGrants[k].target.value;
    NamesExactly(catalogue, t, row);
    assert Addressed(q, q.recordGrants[k]);
    hide TargetsOf, Names;
    LastGrantDecides(q, q.recordGrants, k, t);
    assert Allows(r, t, p);
  }

  lemma ReachesExactly(defaults: RoleDefaults, q: Request, row: CaseRow, m: Module)
    requires !Owner(q)
    ensures var r := Resolution(defaults, q);
      && InScope(r, row, ScopeFor(r, m)) == Reaches(q, Recorded(defaults, q, m), row)
      && AssignedById(r, row) == ByAssignment(q, row) && AssignedByLabel(r, row) == ByLabel(q, row)
  {
    hide PermissionsAfter, RestrictionsAfter, BasePermissions, ScopesOf, GrantedTargets, RestrictedTargets, Allowances;
  }

  /** The row predicate, said of the request and the row: nothing bars the case,
      and either a grant hands it over or the permission may be used and the
      scope of its module takes the case in. */
  lemma AdmittedExactly(defaults: RoleDefaults, catalogue: Catalogue, q: Request, row: CaseRow, p: Permission)
    requires !Owner(q)
    ensures var r := Resolution(defaults, q);
      CanAccessCase(catalogue, r, row, p) <==>
        && !Barred(catalogue, q, row)
        && (Handed(catalogue, q, row, p)
            || (MayUse(r, p) && Reaches(q, Recorded(defaults, q, ModuleOf(p)), row)))
  {
    var r := Resolution(defaults, q);
    assert !r.isOwner;
    assert HasPermission(r, p) <==> MayUse(r, p);
    hide Resolution, TargetsOf, Allows, HasPermission, MayUse, Barred, Handed, Reaches, InScope, ScopeFor, ModuleOf, Recorded;
    BarredExactly(defaults, catalogue, q, row);
    HandedExactly(defaults, catalogue, q, row, p);
    ReachesExactly(defaults, q, row, ModuleOf(p));
  }

  /** No policy of the principal says anything about the module. */
  ghost predicate NoScope(q: Request, m: Module) {
    forall s :: !PersonGives(q, m, s) && !TeamsGive(q, m, s) && !RolesGive(q, m, s)
  }

  /** Without a recorded scope, clients see their own clients' cases and staff see
      every case, restrictions and the permission itself apart. */
  lemma ByDefault(defaults: RoleDefaults, catalogue: Catalogue, q: Request, row: CaseRow, p: Permission)
    requires !Owner(q) && NoScope(q, ModuleOf(p)) && !Handed(catalogue, q, row, p)
    ensures var r := Resolution(defaults, q);
      CanAccessCase(catalogue, r, row, p) <==>
        MayUse(r, p) && !Barred(catalogue, q, row) && (Portal(q) ==> OwnClient(q, row))
  {
    AdmittedExactly(defaults, catalogue, q, row, p);
    ScopeRecorded(defaults, q, ModuleOf(p));
    hide Resolution, CanAccessCase, ModuleOf, Handed, Barred, MayUse, PersonGives, TeamsGive, RolesGive;
    assert Recorded(defaults, q, ModuleOf(p)) == None;
  }

  /** The scope the person's own policy gives is the one that counts. */
  lemma ByOwnScope(defaults: RoleDefaults, catalogue: Catalogue, q: Request, row: CaseRow, p: Permission, s: Scope)
    requires !Owner(q) && PersonGives(q, ModuleOf(p), s) && !Handed(catalogue, q, row, p)
    ensures var r := Resolution(defaults, q);
      CanAccessCase(catalogue, r, row, p) <==>
        MayUse(r, p) && !Barred(catalogue, q, row) && Reaches(q, Some(s), row)
  {
    AdmittedExactly(defaults, catalogue, q, row, p);
    ScopeRecorded(defaults, q, ModuleOf(p));
    PersonScopes(q, ModuleOf(p));
    hide Resolution, CanAccessCase, ModuleOf, Handed, Barred, MayUse, PersonGives, TeamsGive, RolesGive, Reaches;
    assert Recorded(defaults, q, ModuleOf(p)) == Some(s);
  }

  /** The owner is outside the system. */
  lemma OwnerSeesAll(defaults: RoleDefaults, catalogue: Catalogue, q: Request, row: CaseRow, p: Permission)
    requires Owner(q)
    ensures var r := Resolution(defaults, q);
      && CanAccessCase(catalogue, r, row, p) && CaseFilter.Selects(CaseFilter.Compiled(catalogue, r, p), row)
      && HasPermission(r, p) && ScopeFor(r, ModuleOf(p)) == Global
  {
    hide PermissionsAfter, RestrictionsAfter, BasePermissions, ScopesOf, GrantedTargets, RestrictedTargets, Allowances;
  }

  /** A permission the last word restricts is refused even to someone who holds
      the wildcard. */
  lemma WildcardRestricted(defaults: RoleDefaults, catalogue: Catalogue, q: Request, row: CaseRow, policy: Policy,
          p: Permission)
    requires !Owner(q) && Decides(q, policy, p) && p in policy.restrictions && !Handed(catalogue, q, row, p)
    ensures !CanAccessCase(catalogue, Resolution(defaults, q), row, p)
  {
    DecidedBy(defaults, q, policy, p);
    AdmittedExactly(defaults, catalogue, q, row, p);
    hide Resolution, CanAccessCase, Handed, Decides;
  }

  // ------------------------------------------------------------------
  // The listing
  // ------------------------------------------------------------------

  /** Some client is restricted. */
  ghost predicate BarsAClient(q: Request) {
    exists g | g in q.recordGrants ::
      ForPrincipal(q, g) && g.effect == Restricts && g.target.Some? && g.target.value.OnClient?
  }

  /** Some service code is restricted, itself or through its practice area. */
  ghost predicate BarsACode(catalogue: Catalogue, q: Request) {
    exists g | g in q.recordGrants ::
      && ForPrincipal(q, g) && g.effect == Restricts && g.target.Some?
      && ((g.target.value.OnService? && g.target.value.key != "")
          || (g.target.value.OnCategory? && g.target.value.key != "" && g.target.value.key in catalogue.Values))
  }

  lemma RestrictedFrom(defaults: RoleDefaults, q: Request, t: Target)
    ensures t in Resolution(defaults, q).restricted <==>
      && !(t.OnCategory? && t.key == "") && !(t.OnService? && t.key == "")
      && exists g | g in q.recordGrants :: ForPrincipal(q, g) && g.effect == Restricts && g.target == Some(t)
  {
    var restricted := Resolution(defaults, q).restricted;
    assert restricted == RestrictedTargets(q, q.recordGrants);
    hide Resolution;
    if t in restricted {
      var g :| g in q.recordGrants && Addressed(q, g) && g.effect == Restricts && g.target.value == t;
      assert ForPrincipal(q, g) && g.target == Some(t);
    }
    if !(t.OnCategory? && t.key == "") && !(t.OnService? && t.key == "") {
      if g :| g in q.recordGrants && ForPrincipal(q, g) && g.effect == Restricts && g.target == Some(t) {
        assert Addressed(q, g);
      }
    }
  }

  lemma ClientGap(defaults: RoleDefaults, q: Request)
    ensures CaseFilter.ClientIds(Resolution(defaults, q).restricted) != {} <==> BarsAClient(q)
  {
    var restricted := Resolution(defaults, q).restricted;
    forall t { RestrictedFrom(defaults, q, t); }
    hide Resolution;
    if id :| id in CaseFilter.ClientIds(restricted) {
      assert OnClient(id) in restricted;
      var g :| g in q.recordGrants && ForPrincipal(q, g) && g.effect == Restricts && g.target == Some(OnClient(id));
    }
    if BarsAClient(q) {
      var g :| g in q.recordGrants && ForPrincipal(q, g) && g.effect == Restricts && g.target.Some?
        && g.target.value.OnClient?;
      assert g.target.value in restricted;
      assert g.target.value.id in CaseFilter.ClientIds(restricted);
    }
  }

  lemma CodeGap(defaults: RoleDefaults, catalogue: Catalogue, q: Request)
    ensures CaseFilter.ServiceCodes(catalogue, Resolution(defaults, q).restricted) != {} <==> BarsACode(catalogue, q)
  {
    var restricted := Resolution(defaults, q).restricted;
    forall t { RestrictedFrom(defaults, q, t); }
    hide Resolution;
    if code :| code in CaseFilter.ServiceCodes(catalogue, restricted) {
      if OnService(code) in restricted {
        var g :| g in q.recordGrants && ForPrincipal(q, g) && g.effect == Restricts && g.target == Some(OnService(code));
      } else {
        var area := catalogue[code];
        assert OnCategory(area) in restricted && area in catalogue.Values;
        var g :| g in q.recordGrants && ForPrincipal(q, g) && g.effect == Restricts && g.target == Some(OnCategory(area));
      }
    }
    if BarsACode(catalogue, q) {
      var g :| g in q.recordGrants && ForPrincipal(q, g) && g.effect == Restricts && g.target.Some?
        && ((g.target.value.OnService? && g.target.value.key != "")
            || (g.target.value.OnCategory? && g.target.value.key != "" && g.target.value.key in catalogue.Values));
      assert g.target.value in restricted;
      if g.target.value.OnService? {
        assert g.target.value.key in CaseFilter.ServiceCodes(catalogue, restricted);
      } else {
        var code :| code in catalogue && catalogue[code] == g.target.value.key;
        assert code in CaseFilter.ServiceCodes(catalogue, restricted);
      }
    }
  }

  /** As `Reaches`, but for the free-text label, which no query tests. */
  predicate ReachesById(q: Request, scope: Option<Scope>, row: CaseRow) {
    if scope == Some(Assigned) then ByAssignment(q, row) else Reaches(q, scope, row)
  }

  /** The listing query, end to end and said of the request and the row: what
      the row predicate admits, but for a case without a client where a client is
      restricted, one without a service code where a code is restricted, and one
      that only the label assigns. */
  lemma ListedExactly(defaults: RoleDefaults, catalogue: Catalogue, q: Request, row: CaseRow, p: Permission)
    requires !Owner(q)
    ensures var r := Resolution(defaults, q);
      CaseFilter.Selects(CaseFilter.Compiled(catalogue, r, p), row) <==>
        && !Barred(catalogue, q, row)
        && !(row.clientId.None? && BarsAClient(q))
        && !(row.serviceCode.None? && BarsACode(catalogue, q))
        && (Handed(catalogue, q, row, p)
            || (MayUse(r, p) && ReachesById(q, Recorded(defaults, q, ModuleOf(p)), row)))
  {
    var r, m := Resolution(defaults, q), ModuleOf(p);
    ResolvedListingExact(defaults, catalogue, q, row, p);
    AdmittedExactly(defaults, catalogue, q, row, p);
    ClientGap(defaults, q);
    CodeGap(defaults, catalogue, q);
    HandedExactly(defaults, catalogue, q, row, p);
    ReachesExactly(defaults, q, row, m);
    assert !r.isOwner;
    assert Recorded(defaults, q, m) == Some(Assigned) <==> ScopeFor(r, m) == Assigned;
    hide Resolution, CaseFilter.Compiled, CaseFilter.Selects, CanAccessCase, Handed, Barred, MayUse, TargetsOf, Allows,
      BarsAClient, BarsACode, CaseFilter.ServiceCodes, CaseFilter.ClientIds, ScopeFor, InScope, Recorded, AssignedById,
      AssignedByLabel, ByAssignment, ByLabel;
  }
}

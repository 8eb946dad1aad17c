/** Resolution of a principal's effective access from stored policies and record
  grants (src/access.js:123-252): the layered, mutating resolver and the closed
  form it computes. */
module AccessResolver {
  import opened Access
  import CaseFilter
  import opened Options

  datatype Subject = OfRole(name: string) | OfTeam(team: Uuid) | OfUser(user: Uuid)

  datatype Policy = Policy(
    subject: Subject,
    grants: seq<Permission>,
    restrictions: seq<Permission>,
    scopes: map<Module, Scope>)

  datatype Effect = Grants | Restricts | OtherEffect

  /** `target` is absent when the row names no supported kind of resource or
      lacks its id. */
  datatype RecordGrant = RecordGrant(
    subject: Subject,
    target: Option<Target>,
    effect: Effect,
    permissions: seq<Permission>)

  /** `labels` are the lower-cased e-mail address and display name. */
  datatype Principal = Principal(
    id: Option<Uuid>,
    labels: set<string>,
    roles: seq<string>,
    wildcard: bool,
    internal: bool)

  datatype Request = Request(
    principal: Principal,
    policies: seq<Policy>,
    recordGrants: seq<RecordGrant>,
    teamIds: seq<Uuid>,
    clientIds: seq<Uuid>,
    assignedCaseIds: seq<Uuid>)

  /** The permissions each role holds by default. */
  type RoleDefaults = map<string, seq<Permission>>

  // ------------------------------------------------------------------
  // Specification
  // ------------------------------------------------------------------

  function Elements<T>(s: seq<T>): set<T> { set x | x in s }

  /** The elements in the order they first occur. */
  function Distinct(s: seq<Uuid>): seq<Uuid> {
    if s == [] then []
    else
      var before := Distinct(s[..|s| - 1]);
      if s[|s| - 1] in before then before else before + [s[|s| - 1]]
  }

  function FindPolicy(policies: seq<Policy>, subject: Subject): Option<Policy> {
    if policies == [] then None
    else if policies[0].subject == subject then Some(policies[0])
    else FindPolicy(policies[1..], subject)
  }

  function OneLayer(policies: seq<Policy>, subject: Subject): seq<Policy> {
    match FindPolicy(policies, subject)
    case None => []
    case Some(policy) => [policy]
  }

  function RoleLayers(policies: seq<Policy>, roles: seq<string>): seq<Policy> {
    if roles == [] then []
    else RoleLayers(policies, roles[..|roles| - 1]) + OneLayer(policies, OfRole(roles[|roles| - 1]))
  }

  function TeamLayers(policies: seq<Policy>, teams: seq<Uuid>): seq<Policy> {
    if teams == [] then []
    else TeamLayers(policies, teams[..|teams| - 1]) + OneLayer(policies, OfTeam(teams[|teams| - 1]))
  }

  function UserLayer(policies: seq<Policy>, id: Option<Uuid>): seq<Policy> {
    if id.None? then [] else OneLayer(policies, OfUser(id.value))
  }

  /** Every policy that applies, in the order it is applied. */
  function Layers(q: Request): seq<Policy> {
    RoleLayers(q.policies, q.principal.roles)
    + TeamLayers(q.policies, Distinct(q.teamIds))
    + UserLayer(q.policies, q.principal.id)
  }

  function DefaultsOf(defaults: RoleDefaults, role: string): seq<Permission> {
    if role in defaults then defaults[role] else []
  }

  ghost function BasePermissions(defaults: RoleDefaults, roles: seq<string>): set<Permission> {
    set role, p | role in roles && p in DefaultsOf(defaults, role) :: p
  }

  /** The two sets the resolver accumulates. */
  function PermissionsAfter(base: set<Permission>, layers: seq<Policy>): set<Permission> {
    if layers == [] then base
    else
      var last := layers[|layers| - 1];
      PermissionsAfter(base, layers[..|layers| - 1]) + Elements(last.grants) - Elements(last.restrictions)
  }

  function RestrictionsAfter(layers: seq<Policy>): set<Permission> {
    if layers == [] then {}
    else
      var last := layers[|layers| - 1];
      RestrictionsAfter(layers[..|layers| - 1]) - Elements(last.grants) + Elements(last.restrictions)
  }

  predicate Wider(s: Scope, t: Scope) { s.Rank() > t.Rank() }

  function Widen(current: map<Module, Scope>, more: map<Module, Scope>): map<Module, Scope> {
    map m | m in current.Keys + more.Keys ::
      if m !in current || (m in more && Wider(more[m], current[m])) then more[m] else current[m]
  }

  function WidestScopes(layers: seq<Policy>): map<Module, Scope> {
    if layers == [] then map[]
    else Widen(WidestScopes(layers[..|layers| - 1]), layers[|layers| - 1].scopes)
  }

  function ScopesOf(q: Request): map<Module, Scope> {
    var user := UserLayer(q.policies, q.principal.id);
    WidestScopes(RoleLayers(q.policies, q.principal.roles))
    + WidestScopes(TeamLayers(q.policies, Distinct(q.teamIds)))
    + (if user == [] then map[] else user[0].scopes)
  }

  /** Is the grant addressed to this principal, and about something? */
  predicate Addressed(q: Request, g: RecordGrant) {
    && (match g.subject
        case OfUser(user) => q.principal.id == Some(user)
        case OfTeam(team) => team in q.teamIds
        case OfRole(_) => false)
    && g.target.Some?
    && !(g.target.value.OnCategory? && g.target.value.key == "")
    && !(g.target.value.OnService? && g.target.value.key == "")
  }

  function AllowanceOf(permissions: seq<Permission>): Allowance {
    if permissions == [] then Everything else Only(Elements(permissions))
  }

  ghost function GrantedTargets(q: Request, grants: seq<RecordGrant>): set<Target> {
    set g | g in grants && Addressed(q, g) && g.effect != Restricts :: g.target.value
  }

  ghost function RestrictedTargets(q: Request, grants: seq<RecordGrant>): set<Target> {
    set g | g in grants && Addressed(q, g) && g.effect == Restricts :: g.target.value
  }

  function Allowances(q: Request, grants: seq<RecordGrant>): map<Target, Allowance> {
    if grants == [] then map[]
    else
      var last := grants[|grants| - 1];
      var before := Allowances(q, grants[..|grants| - 1]);
      if Addressed(q, last) && last.effect == Grants then before[last.target.value := AllowanceOf(last.permissions)]
      else before
  }

  predicate IsOwner(p: Principal) {
    "owner" in p.roles || p.wildcard || p.internal
  }

  /** What the resolver computes. */
  ghost function Resolution(defaults: RoleDefaults, q: Request): Resolved {
    Resolved(
      q.principal.id,
      q.principal.labels,
      IsOwner(q.principal),
      q.principal.roles != [] && forall role | role in q.principal.roles :: role in CLIENT_ROLES,
      PermissionsAfter(BasePermissions(defaults, q.principal.roles), Layers(q)),
      RestrictionsAfter(Layers(q)),
      ScopesOf(q),
      Elements(q.teamIds),
      Elements(q.clientIds),
      Elements(q.assignedCaseIds),
      GrantedTargets(q, q.recordGrants),
      RestrictedTargets(q, q.recordGrants),
      Allowances(q, q.recordGrants))
  }

  // ------------------------------------------------------------------
  // The resolver
  // ------------------------------------------------------------------

  /** The state the layers are applied to. */
  class AccessState {
    var permissions: set<Permission>
    var restrictions: set<Permission>
    var scopes: map<Module, Scope>

    constructor ()
      ensures permissions == {} && restrictions == {} && scopes == map[]
    {
      permissions, restrictions, scopes := {}, {}, map[];
    }

    method ApplyLayer(policy: Policy)
      modifies this
      ensures permissions == old(permissions) + Elements(policy.grants) - Elements(policy.restrictions)
      ensures restrictions == old(restrictions) - Elements(policy.grants) + Elements(policy.restrictions)
      ensures scopes == Widen(old(scopes), policy.scopes)
    {
      var i := 0;
      while i < |policy.grants|
        invariant 0 <= i <= |policy.grants|
        invariant permissions == old(permissions) + Elements(policy.grants[..i])
        invariant restrictions == old(restrictions) - Elements(policy.grants[..i])
        invariant scopes == old(scopes)
      {
        permissions := permissions + {policy.grants[i]};
        restrictions := restrictions - {policy.grants[i]};
        i := i + 1;
      }
      assert policy.grants[..i] == policy.grants;
      i := 0;
      while i < |policy.restrictions|
        invariant 0 <= i <= |policy.restrictions|
        invariant permissions == old(permissions) + Elements(policy.grants) - Elements(policy.restrictions[..i])
        invariant restrictions == old(restrictions) - Elements(policy.grants) + Elements(policy.restrictions[..i])
        invariant scopes == old(scopes)
      {
        permissions := permissions - {policy.restrictions[i]};
        restrictions := restrictions + {policy.restrictions[i]};
        i := i + 1;
      }
      assert policy.restrictions[..i] == policy.restrictions;
      scopes := WidenScopes(scopes, policy.scopes);
    }
  }

  /** Entry by entry, keep the wider scope. */
  method WidenScopes(current: map<Module, Scope>, more: map<Module, Scope>) returns (scopes: map<Module, Scope>)
    ensures scopes == Widen(current, more)
  {
    scopes := current;
    var entries := more.Keys;
    while entries != {}
      invariant entries <= more.Keys
      invariant scopes == Widen(current, more - entries)
      decreases entries
    {
      var m :| m in entries;
      if m !in scopes || Wider(more[m], scopes[m]) { scopes := scopes[m := more[m]]; }
      entries := entries - {m};
    }
    assert more - entries == more;
  }

  method ResolveAccess(defaults: RoleDefaults, q: Request) returns (r: Resolved)
    ensures r == Resolution(defaults, q)
  {
    var state := new AccessState();
    RoleDefaultsInto(state, defaults, q.principal.roles);
    ghost var base := state.permissions;
    ApplyRoles(state, q);
    ApplyTeams(state, q, base);
    ApplyUser(state, q, base, RoleLayers(q.policies, q.principal.roles) + TeamLayers(q.policies, Distinct(q.teamIds)));
    var granted, restricted, allowances := RecordLevel(q);
    r := Resolved(
      q.principal.id, q.principal.labels, IsOwner(q.principal),
      q.principal.roles != [] && forall role | role in q.principal.roles :: role in CLIENT_ROLES,
      state.permissions, state.restrictions, state.scopes,
      Elements(q.teamIds), Elements(q.clientIds), Elements(q.assignedCaseIds),
      granted, restricted, allowances);
  }

  /** Layer 1: the stored policy of each role. */
  method ApplyRoles(state: AccessState, q: Request)
    requires state.restrictions == {} && state.scopes == map[]
    modifies state
    ensures state.permissions == PermissionsAfter(old(state.permissions), RoleLayers(q.policies, q.principal.roles))
    ensures state.restrictions == RestrictionsAfter(RoleLayers(q.policies, q.principal.roles))
    ensures state.scopes == WidestScopes(RoleLayers(q.policies, q.principal.roles))
  {
    var roles := q.principal.roles;
    for k := 0 to |roles|
      invariant state.permissions == PermissionsAfter(old(state.permissions), RoleLayers(q.policies, roles[..k]))
      invariant state.restrictions == RestrictionsAfter(RoleLayers(q.policies, roles[..k]))
      invariant state.scopes == WidestScopes(RoleLayers(q.policies, roles[..k]))
    {
      assert roles[..k + 1][..k] == roles[..k];
      var found := FindPolicy(q.policies, OfRole(roles[k]));
      if found.Some? {
        LayerAdded(RoleLayers(q.policies, roles[..k]), found.value);
        state.ApplyLayer(found.value);
      } else {
        assert RoleLayers(q.policies, roles[..k + 1]) == RoleLayers(q.policies, roles[..k]);
      }
    }
    assert roles[..|roles|] == roles;
  }

  /** Layer 2: every team. The widest team scope of each module replaces what
      the roles gave it. */
  method ApplyTeams(state: AccessState, q: Request, ghost base: set<Permission>)
    requires state.permissions == PermissionsAfter(base, RoleLayers(q.policies, q.principal.roles))
    requires state.restrictions == RestrictionsAfter(RoleLayers(q.policies, q.principal.roles))
    modifies state
    ensures var layers := RoleLayers(q.policies, q.principal.roles) + TeamLayers(q.policies, Distinct(q.teamIds));
      state.permissions == PermissionsAfter(base, layers) && state.restrictions == RestrictionsAfter(layers)
    ensures state.scopes == old(state.scopes) + WidestScopes(TeamLayers(q.policies, Distinct(q.teamIds)))
  {
    ghost var byRole := RoleLayers(q.policies, q.principal.roles);
    var teams := Distinct(q.teamIds);
    var teamScopes: map<Module, Scope> := map[];
    assert byRole + [] == byRole;
    for k := 0 to |teams|
      invariant state.permissions == PermissionsAfter(base, byRole + TeamLayers(q.policies, teams[..k]))
      invariant state.restrictions == RestrictionsAfter(byRole + TeamLayers(q.policies, teams[..k]))
      invariant state.scopes == old(state.scopes)
      invariant teamScopes == WidestScopes(TeamLayers(q.policies, teams[..k]))
    {
      assert TeamLayers(q.policies, teams[..k + 1])
          == TeamLayers(q.policies, teams[..k]) + OneLayer(q.policies, OfTeam(teams[k])) by {
        assert teams[..k + 1][..k] == teams[..k];
      }
      hide *;
      teamScopes := ApplyTeam(state, q.policies, teams[k], teamScopes, base, byRole, TeamLayers(q.policies, teams[..k]));
    }
    assert teams[..|teams|] == teams;
    state.scopes := state.scopes + teamScopes;
  }

  /** One team's policy. Its scopes are gathered apart from the state. */
  method ApplyTeam(state: AccessState, policies: seq<Policy>, team: Uuid, current: map<Module, Scope>,
                   ghost base: set<Permission>, ghost before: seq<Policy>, ghost done: seq<Policy>)
    returns (teamScopes: map<Module, Scope>)
    requires state.permissions == PermissionsAfter(base, before + done)
    requires state.restrictions == RestrictionsAfter(before + done)
    requires current == WidestScopes(done)
    modifies state
    ensures var layers := before + (done + OneLayer(policies, OfTeam(team)));
      state.permissions == PermissionsAfter(base, layers) && state.restrictions == RestrictionsAfter(layers)
    ensures state.scopes == old(state.scopes)
    ensures teamScopes == WidestScopes(done + OneLayer(policies, OfTeam(team)))
  {
    var found := FindPolicy(policies, OfTeam(team));
    if found.None? {
      assert done + [] == done;
      return current;
    }
    LayerAdded(done, found.value);
    LayerAdded(before + done, found.value);
    assert before + (done + [found.value]) == before + done + [found.value];
    WidenNothing(state.scopes);
    state.ApplyLayer(found.value.(scopes := map[]));
    teamScopes := WidenScopes(current, found.value.scopes);
  }

  /** Layer 3: the person. */
  method ApplyUser(state: AccessState, q: Request, ghost base: set<Permission>, ghost layers: seq<Policy>)
    requires state.permissions == PermissionsAfter(base, layers)
    requires state.restrictions == RestrictionsAfter(layers)
    modifies state
    ensures var all := layers + UserLayer(q.policies, q.principal.id);
      state.permissions == PermissionsAfter(base, all) && state.restrictions == RestrictionsAfter(all)
    ensures var user := UserLayer(q.policies, q.principal.id);
      state.scopes == old(state.scopes) + (if user == [] then map[] else user[0].scopes)
  {
    var user := if q.principal.id.Some? then FindPolicy(q.policies, OfUser(q.principal.id.value)) else None;
    if user.Some? {
      LayerAdded(layers, user.value);
      WidenNothing(state.scopes);
      state.ApplyLayer(user.value.(scopes := map[]));
      state.scopes := state.scopes + user.value.scopes;
    } else {
      assert layers + [] == layers;
    }
  }

  method RoleDefaultsInto(state: AccessState, defaults: RoleDefaults, roles: seq<string>)
    requires state.permissions == {}
    modifies state
    ensures state.permissions == BasePermissions(defaults, roles)
    ensures state.restrictions == old(state.restrictions) && state.scopes == old(state.scopes)
  {
    for k := 0 to |roles|
      invariant state.permissions == BasePermissions(defaults, roles[..k])
      invariant state.restrictions == old(state.restrictions) && state.scopes == old(state.scopes)
    {
      var list := DefaultsOf(defaults, roles[k]);
      ghost var before := state.permissions;
      for i := 0 to |list|
        invariant state.permissions == before + Elements(list[..i])
        invariant state.restrictions == old(state.restrictions) && state.scopes == old(state.scopes)
      {
        state.permissions := state.permissions + {list[i]};
      }
      assert list[..|list|] == list;
      assert roles[..k + 1] == roles[..k] + [roles[k]];
    }
    assert roles[..|roles|] == roles;
  }

  /** Record-level grants and restrictions. A later grant on the same target
      replaces what an earlier one allowed. */
  method RecordLevel(q: Request)
    returns (granted: set<Target>, restricted: set<Target>, allowances: map<Target, Allowance>)
    ensures granted == GrantedTargets(q, q.recordGrants)
    ensures restricted == RestrictedTargets(q, q.recordGrants)
    ensures allowances == Allowances(q, q.recordGrants)
  {
    granted, restricted, allowances := {}, {}, map[];
    var grants := q.recordGrants;
    for k := 0 to |grants|
      invariant granted == GrantedTargets(q, grants[..k])
      invariant restricted == RestrictedTargets(q, grants[..k])
      invariant allowances == Allowances(q, grants[..k])
    {
      var g := grants[k];
      assert grants[..k + 1] == grants[..k] + [g];
      if Addressed(q, g) {
        if g.effect == Restricts {
          restricted := restricted + {g.target.value};
        } else {
          granted := granted + {g.target.value};
        }
        if g.effect == Grants {
          allowances := allowances[g.target.value := AllowanceOf(g.permissions)];
        }
      }
    }
    assert grants[..|grants|] == grants;
  }

  lemma WidenNothing(scopes: map<Module, Scope>)
    ensures Widen(scopes, map[]) == scopes
  {
  }

  lemma LayerAdded(layers: seq<Policy>, policy: Policy)
    ensures (layers + [policy])[..|layers|] == layers
    ensures (layers + [policy])[|layers|] == policy
  {
  }

  // ------------------------------------------------------------------
  // The closed form
  // ------------------------------------------------------------------

  datatype Verdict = Silent | Granted | Restricted

  /** Inside one policy a restriction beats a grant. */
  function Says(policy: Policy, p: Permission): Verdict {
    if p in policy.restrictions then Restricted
    else if p in policy.grants then Granted
    else Silent
  }

  /** What the last policy that mentions the permission says. */
  function LastWord(layers: seq<Policy>, p: Permission): Verdict {
    if layers == [] then Silent
    else
      var verdict := Says(layers[|layers| - 1], p);
      if verdict != Silent then verdict else LastWord(layers[..|layers| - 1], p)
  }

  lemma {:induction false} LastWordDecides(base: set<Permission>, layers: seq<Policy>, p: Permission)
    ensures p in PermissionsAfter(base, layers) <==>
      LastWord(layers, p) == Granted || (LastWord(layers, p) == Silent && p in base)
    ensures p in RestrictionsAfter(layers) <==> LastWord(layers, p) == Restricted
  {
    if layers != [] {
      LastWordDecides(base, layers[..|layers| - 1], p);
    }
  }

  /** Every permission is decided by the last policy, in role, team, user order,
      that mentions it, and by the role defaults when none does. */
  lemma {:induction false} PermissionDecided(defaults: RoleDefaults, q: Request, p: Permission)
    ensures var r := Resolution(defaults, q);
      && (p in r.permissions <==>
            LastWord(Layers(q), p) == Granted
            || (&& LastWord(Layers(q), p) == Silent
                && exists role | role in q.principal.roles :: p in DefaultsOf(defaults, role)))
      && (p in r.restrictions <==> LastWord(Layers(q), p) == Restricted)
      && !(p in r.permissions && p in r.restrictions)
  {
    LastWordDecides(BasePermissions(defaults, q.principal.roles), Layers(q), p);
  }

  /** A list of policies has said nothing about a permission exactly when each
      of its policies is silent. */
  lemma {:induction false} LastWordSilent(layers: seq<Policy>, p: Permission)
    ensures LastWord(layers, p) == Silent <==> forall i | 0 <= i < |layers| :: Says(layers[i], p) == Silent
    ensures LastWord(layers, p) != Silent ==>
      exists i | 0 <= i < |layers| :: Says(layers[i], p) == LastWord(layers, p)
  {
    if layers != [] {
      var init := layers[..|layers| - 1];
      LastWordSilent(init, p);
      if Says(layers[|layers| - 1], p) == Silent {
        if LastWord(init, p) != Silent {
          var i :| 0 <= i < |init| && Says(init[i], p) == LastWord(init, p);
          assert layers[i] == init[i];
        } else {
          forall i | 0 <= i < |layers| ensures Says(layers[i], p) == Silent {
            if i < |init| { assert init[i] == layers[i]; }
          }
        }
      }
    }
  }

  lemma {:induction false} LastWordAppend(first: seq<Policy>, second: seq<Policy>, p: Permission)
    ensures LastWord(first + second, p) ==
      if LastWord(second, p) != Silent then LastWord(second, p) else LastWord(first, p)
  {
    if second == [] {
      assert first + second == first;
    } else {
      LastWordAppend(first, second[..|second| - 1], p);
      assert (first + second)[..|first + second| - 1] == first + second[..|second| - 1];
    }
  }

  /** A decision about the person overrides their roles and teams, in either
      direction. */
  lemma {:induction false} UserOverrides(defaults: RoleDefaults, q: Request, policy: Policy, p: Permission)
    requires UserLayer(q.policies, q.principal.id) == [policy] && Says(policy, p) != Silent
    ensures var r := Resolution(defaults, q);
      && (p in r.permissions <==> Says(policy, p) == Granted)
      && (p in r.restrictions <==> Says(policy, p) == Restricted)
  {
    PermissionDecided(defaults, q, p);
    LastWordAppend(RoleLayers(q.policies, q.principal.roles) + TeamLayers(q.policies, Distinct(q.teamIds)), [policy], p);
  }

  // ------------------------------------------------------------------
  // Several teams: permissions depend on their order, scopes do not
  // ------------------------------------------------------------------

  ghost predicate Agree(layers: seq<Policy>, p: Permission) {
    forall i, j | 0 <= i < |layers| && 0 <= j < |layers| ::
      Says(layers[i], p) != Silent && Says(layers[j], p) != Silent ==> Says(layers[i], p) == Says(layers[j], p)
  }

  lemma AgreedWord(layers: seq<Policy>, moved: seq<Policy>, p: Permission)
    requires Agree(layers, p)
    requires forall policy :: policy in layers <==> policy in moved
    ensures LastWord(moved, p) == LastWord(layers, p)
  {
    LastWordSilent(layers, p);
    LastWordSilent(moved, p);
    assert forall i | 0 <= i < |moved| :: moved[i] in moved;
    assert forall i | 0 <= i < |layers| :: layers[i] in layers;
    if LastWord(moved, p) != Silent {
      var i :| 0 <= i < |moved| && Says(moved[i], p) == LastWord(moved, p);
      assert moved[i] in layers;
      var j :| 0 <= j < |layers| && layers[j] == moved[i];
      var k :| 0 <= k < |layers| && Says(layers[k], p) == LastWord(layers, p);
    }
  }

  /** The same principal, with the same teams listed in another way. */
  ghost predicate SameTeams(q: Request, q': Request) {
    && q' == q.(teamIds := q'.teamIds)
    && forall team :: team in q.teamIds <==> team in q'.teamIds
  }

  lemma SameTeamLayers(q: Request, q': Request)
    requires SameTeams(q, q')
    ensures forall policy ::
      policy in TeamLayers(q.policies, Distinct(q.teamIds)) <==> policy in TeamLayers(q.policies, Distinct(q'.teamIds))
  {
    DistinctElements(q.teamIds);
    DistinctElements(q'.teamIds);
    forall policy
      ensures policy in TeamLayers(q.policies, Distinct(q.teamIds)) <==> policy in TeamLayers(q.policies, Distinct(q'.teamIds))
    {
      TeamLayerMembers(q.policies, Distinct(q.teamIds), policy);
      TeamLayerMembers(q.policies, Distinct(q'.teamIds), policy);
    }
  }

  /** List the teams so that the team of the given policy comes last. */
  lemma ListedLast(q: Request, x: Policy, p: Permission) returns (q': Request)
    requires x in TeamLayers(q.policies, Distinct(q.teamIds)) && Says(x, p) != Silent
    requires LastWord(UserLayer(q.policies, q.principal.id), p) == Silent
    ensures SameTeams(q, q') && LastWord(Layers(q'), p) == Says(x, p)
  {
    var teams := Distinct(q.teamIds);
    DistinctElements(q.teamIds);
    DistinctOnce(q.teamIds);
    TeamLayerMembers(q.policies, teams, x);
    var team :| team in teams && FindPolicy(q.policies, OfTeam(team)) == Some(x);
    var others := MoveToEnd(teams, team);
    q' := q.(teamIds := others + [team]);
    OnceDistinct(others + [team]);
    LastTeamWord(q', others, team, x, p);
  }

  /** With the personal policy silent, the last listed team has the last word. */
  lemma LastTeamWord(q: Request, others: seq<Uuid>, team: Uuid, x: Policy, p: Permission)
    requires Distinct(q.teamIds) == others + [team]
    requires FindPolicy(q.policies, OfTeam(team)) == Some(x) && Says(x, p) != Silent
    requires LastWord(UserLayer(q.policies, q.principal.id), p) == Silent
    ensures LastWord(Layers(q), p) == Says(x, p)
  {
    var roles, init := RoleLayers(q.policies, q.principal.roles), TeamLayers(q.policies, others);
    assert (others + [team])[..|others|] == others;
    assert TeamLayers(q.policies, others + [team]) == init + [x];
    LastWordAppend(roles + (init + [x]), UserLayer(q.policies, q.principal.id), p);
    LastWordAppend(roles, init + [x], p);
    LastWordAppend(init, [x], p);
  }

  lemma MoveToEnd(teams: seq<Uuid>, team: Uuid) returns (others: seq<Uuid>)
    requires Once(teams) && team in teams
    ensures Once(others + [team])
    ensures forall t :: t in others + [team] <==> t in teams
  {
    var i :| 0 <= i < |teams| && teams[i] == team;
    others := teams[..i] + teams[i + 1..];
    assert teams == teams[..i] + [team] + teams[i + 1..];
    forall j, k | 0 <= j < k < |others + [team]| ensures (others + [team])[j] != (others + [team])[k] {
      var j' := if j < i then j else j + 1;
      var k' := if k == |others| then i else if k < i then k else k + 1;
      assert (others + [team])[j] == teams[j'] && (others + [team])[k] == teams[k'];
    }
  }

  ghost predicate Once(s: seq<Uuid>) {
    forall i, j | 0 <= i < j < |s| :: s[i] != s[j]
  }

  lemma {:induction false} DistinctOnce(s: seq<Uuid>)
    ensures Once(Distinct(s))
  {
    if s != [] {
      DistinctOnce(s[..|s| - 1]);
    }
  }

  lemma {:induction false} OnceDistinct(s: seq<Uuid>)
    requires Once(s)
    ensures Distinct(s) == s
  {
    if s != [] {
      OnceDistinct(s[..|s| - 1]);
      assert s == s[..|s| - 1] + [s[|s| - 1]];
    }
  }

  /** What is decided about a permission is independent of the order the teams
      are listed in exactly when the personal policy mentions it or no two team
      policies that mention it disagree. */
  lemma TeamOrderMatters(q: Request, p: Permission)
    ensures
      || LastWord(UserLayer(q.policies, q.principal.id), p) != Silent
      || Agree(TeamLayers(q.policies, Distinct(q.teamIds)), p)
      <==> forall q' | SameTeams(q, q') :: LastWord(Layers(q'), p) == LastWord(Layers(q), p)
  {
    var roles, user := RoleLayers(q.policies, q.principal.roles), UserLayer(q.policies, q.principal.id);
    var teams := TeamLayers(q.policies, Distinct(q.teamIds));
    if LastWord(user, p) != Silent || Agree(teams, p) {
      forall q' | SameTeams(q, q') ensures LastWord(Layers(q'), p) == LastWord(Layers(q), p) {
        var teams' := TeamLayers(q.policies, Distinct(q'.teamIds));
        LastWordAppend(roles + teams, user, p);
        LastWordAppend(roles + teams', user, p);
        LastWordAppend(roles, teams, p);
        LastWordAppend(roles, teams', p);
        if LastWord(user, p) == Silent {
          SameTeamLayers(q, q');
          AgreedWord(teams, teams', p);
        }
      }
    } else {
      var i, j :| 0 <= i < |teams| && 0 <= j < |teams|
        && Says(teams[i], p) != Silent && Says(teams[j], p) != Silent && Says(teams[i], p) != Says(teams[j], p);
      var first := ListedLast(q, teams[i], p);
      var second := ListedLast(q, teams[j], p);
      assert LastWord(Layers(first), p) != LastWord(Layers(second), p);
    }
  }

  /** Two memberships of the same two teams, listed in the two orders, can give
      opposite answers. */
  lemma TeamOrderExample(defaults: RoleDefaults) returns (q: Request, q': Request, p: Permission)
    ensures |q.teamIds| == 2 && q' == q.(teamIds := [q.teamIds[1], q.teamIds[0]])
    ensures HasPermission(Resolution(defaults, q), p)
    ensures !HasPermission(Resolution(defaults, q'), p)
  {
    p := "cases.manage";
    var allow := Policy(OfTeam(1), [p], [], map[]);
    var deny := Policy(OfTeam(2), [], [p], map[]);
    q := Request(Principal(None, {}, [], false, false), [allow, deny], [], [2, 1], [], []);
    q' := q.(teamIds := [1, 2]);
    assert q.policies[1..] == [deny];
    assert FindPolicy(q.policies, OfTeam(2)) == FindPolicy([deny], OfTeam(2)) == Some(deny);
    assert FindPolicy(q.policies, OfTeam(1)) == Some(allow);
    OnceDistinct(q.teamIds);
    OnceDistinct(q'.teamIds);
    LastTeamWord(q, [2], 1, allow, p);
    LastTeamWord(q', [1], 2, deny, p);
    GrantedHas(defaults, q, p);
    PermissionDecided(defaults, q', p);
  }

  lemma GrantedHas(defaults: RoleDefaults, q: Request, p: Permission)
    requires LastWord(Layers(q), p) == Granted
    ensures HasPermission(Resolution(defaults, q), p)
  {
    PermissionDecided(defaults, q, p);
  }

  /** `s` is the widest scope the layer gives a module. */
  ghost predicate IsWidest(layers: seq<Policy>, m: Module, s: Scope) {
    && (exists policy | policy in layers :: m in policy.scopes && policy.scopes[m] == s)
    && (forall policy | policy in layers && m in policy.scopes :: !Wider(policy.scopes[m], s))
  }

  lemma {:induction false} WidestFound(layers: seq<Policy>, m: Module)
    ensures m in WidestScopes(layers) <==> exists policy | policy in layers :: m in policy.scopes
    ensures m in WidestScopes(layers) ==> IsWidest(layers, m, WidestScopes(layers)[m])
  {
    if layers != [] {
      var init, last := layers[..|layers| - 1], layers[|layers| - 1];
      WidestFound(init, m);
      assert layers == init + [last];
      assert forall policy :: policy in layers <==> policy in init || policy == last;
    }
  }

  lemma WidestUnique(layers: seq<Policy>, layers': seq<Policy>, m: Module, s: Scope, s': Scope)
    requires forall policy :: policy in layers <==> policy in layers'
    requires IsWidest(layers, m, s) && IsWidest(layers', m, s')
    ensures s == s'
  {
    assert !Wider(s, s') && !Wider(s', s);
  }

  /** Each module's scope is the person's, else the widest of their teams', else
      the widest of their roles', else none is recorded. */
  lemma {:induction false} ScopeDecided(defaults: RoleDefaults, q: Request, m: Module)
    ensures var scopes := Resolution(defaults, q).scopes;
      var roles, teams, user :=
        RoleLayers(q.policies, q.principal.roles),
        TeamLayers(q.policies, Distinct(q.teamIds)),
        UserLayer(q.policies, q.principal.id);
      if user != [] && m in user[0].scopes then m in scopes && scopes[m] == user[0].scopes[m]
      else if exists policy | policy in teams :: m in policy.scopes then m in scopes && IsWidest(teams, m, scopes[m])
      else if exists policy | policy in roles :: m in policy.scopes then m in scopes && IsWidest(roles, m, scopes[m])
      else m !in scopes
  {
    WidestFound(RoleLayers(q.policies, q.principal.roles), m);
    WidestFound(TeamLayers(q.policies, Distinct(q.teamIds)), m);
  }

  lemma {:induction false} DistinctElements(s: seq<Uuid>)
    ensures forall x :: x in Distinct(s) <==> x in s
  {
    if s != [] {
      DistinctElements(s[..|s| - 1]);
      assert s == s[..|s| - 1] + [s[|s| - 1]];
    }
  }

  lemma {:induction false} TeamLayerMembers(policies: seq<Policy>, teams: seq<Uuid>, policy: Policy)
    ensures policy in TeamLayers(policies, teams) <==>
      exists team | team in teams :: FindPolicy(policies, OfTeam(team)) == Some(policy)
  {
    if teams != [] {
      var init, last := teams[..|teams| - 1], teams[|teams| - 1];
      TeamLayerMembers(policies, init, policy);
      assert teams == init + [last];
      assert forall team :: team in teams <==> team in init || team == last;
    }
  }

  /** Scopes do not depend on the order, or the repetition, of the teams. */
  lemma TeamOrderKeepsScopes(defaults: RoleDefaults, q: Request, q': Request)
    requires SameTeams(q, q')
    ensures Resolution(defaults, q).scopes == Resolution(defaults, q').scopes
  {
    SameTeamLayers(q, q');
    SameWidest(TeamLayers(q.policies, Distinct(q.teamIds)), TeamLayers(q.policies, Distinct(q'.teamIds)));
  }

  /** The widest scopes depend only on which policies there are. */
  lemma SameWidest(t: seq<Policy>, t': seq<Policy>)
    requires forall policy :: policy in t <==> policy in t'
    ensures WidestScopes(t) == WidestScopes(t')
  {
    forall m
      ensures m in WidestScopes(t) <==> m in WidestScopes(t')
      ensures m in WidestScopes(t) ==> WidestScopes(t)[m] == WidestScopes(t')[m]
    {
      WidestFound(t, m);
      WidestFound(t', m);
      if m in WidestScopes(t) {
        WidestUnique(t, t', m, WidestScopes(t)[m], WidestScopes(t')[m]);
      }
    }
  }

  // ------------------------------------------------------------------
  // What the resolver hands to the row predicate and the query compiler
  // ------------------------------------------------------------------

  lemma {:induction false} AllowancesGranted(q: Request, grants: seq<RecordGrant>)
    ensures Allowances(q, grants).Keys <= GrantedTargets(q, grants)
  {
    if grants != [] {
      AllowancesGranted(q, grants[..|grants| - 1]);
    }
  }

  lemma ResolutionWellFormed(defaults: RoleDefaults, q: Request)
    ensures CaseFilter.WellFormed(Resolution(defaults, q))
  {
    AllowancesGranted(q, q.recordGrants);
  }

  /** The last grant on a target decides what it allows. */
  lemma {:induction false} LastGrantDecides(q: Request, grants: seq<RecordGrant>, k: nat, target: Target)
    requires k < |grants| && Addressed(q, grants[k]) && grants[k].effect == Grants && grants[k].target == Some(target)
    requires forall i | k < i < |grants| ::
      !(Addressed(q, grants[i]) && grants[i].effect == Grants && grants[i].target == Some(target))
    ensures target in Allowances(q, grants) && Allowances(q, grants)[target] == AllowanceOf(grants[k].permissions)
  {
    if k < |grants| - 1 {
      LastGrantDecides(q, grants[..|grants| - 1], k, target);
    }
  }

  /** End to end: for every stored policy set, every principal but the owner,
      every permission and every case row, the query compiled from the resolved
      access returns the row exactly when the row predicate admits it and the
      row is outside the gap. */
  lemma ResolvedListingExact(defaults: RoleDefaults, catalogue: Catalogue, q: Request, row: CaseRow, p: Permission)
    requires !IsOwner(q.principal)
    ensures var a := Resolution(defaults, q);
      CaseFilter.Selects(CaseFilter.Compiled(catalogue, a, p), row) <==>
        CanAccessCase(catalogue, a, row, p) && !CaseFilter.Gap(catalogue, a, row, p)
  {
    ResolutionWellFormed(defaults, q);
    CaseFilter.CompiledExactly(catalogue, Resolution(defaults, q), row, p);
  }

  /** A record restriction is absolute for everyone but the owner, whatever
      policies and grants say. */
  lemma RestrictionAbsolute(defaults: RoleDefaults, catalogue: Catalogue, q: Request, g: RecordGrant,
          row: CaseRow, p: Permission)
    requires !IsOwner(q.principal)
    requires g in q.recordGrants && Addressed(q, g) && g.effect == Restricts
    requires g.target.value in TargetsOf(catalogue, row)
    ensures !CanAccessCase(catalogue, Resolution(defaults, q), row, p)
  {
    var a := Resolution(defaults, q);
    assert g.target.value in TargetsOf(catalogue, row) * a.restricted;
  }

  // ------------------------------------------------------------------
  // The three gaps are reached
  // ------------------------------------------------------------------

  /** A person whose own policy gives them the permission, with some record
      grants and some scopes. */
  function Clerk(grants: seq<RecordGrant>, scopes: map<Module, Scope>): Request {
    Request(Principal(Some(1), {"a@example.org"}, [], false, false),
            [Policy(OfUser(1), ["cases.view"], [], scopes)], grants, [], [], [])
  }

  lemma ClerkAccess(defaults: RoleDefaults, grants: seq<RecordGrant>, scopes: map<Module, Scope>)
    ensures var a := Resolution(defaults, Clerk(grants, scopes));
      && HasPermission(a, "cases.view") && a.scopes == scopes
      && CaseFilter.WellFormed(a)
  {
    var q := Clerk(grants, scopes);
    UserOverrides(defaults, q, q.policies[0], "cases.view");
    ResolutionWellFormed(defaults, q);
    assert RoleLayers(q.policies, []) == [] && TeamLayers(q.policies, Distinct([])) == [];
  }

  /** A case of which nothing is known yet. */
  function BareCase(): CaseRow {
    CaseRow(1, None, None, None, "", None)
  }

  function KeptFrom(target: Target): Request {
    Clerk([RecordGrant(OfUser(1), Some(target), Restricts, [])], map[])
  }

  lemma KeptFromRestricted(defaults: RoleDefaults, target: Target)
    requires !(target.OnCategory? && target.key == "") && !(target.OnService? && target.key == "")
    ensures var a := Resolution(defaults, KeptFrom(target));
      && !a.isOwner && !a.isClientPrincipal && a.restricted == {target}
      && HasPermission(a, "cases.view") && a.scopes == map[]
  {
    var q := KeptFrom(target);
    var a := Resolution(defaults, q);
    assert q == Clerk(q.recordGrants, map[]);
    assert !a.isOwner && !a.isClientPrincipal && a.restricted == RestrictedTargets(q, q.recordGrants);
    var g := q.recordGrants[0];
    assert q.recordGrants == [g] && Addressed(q, g) && g.effect == Restricts && g.target == Some(target);
    hide *;
    ClerkAccess(defaults, q.recordGrants, map[]);
    OneRestriction(q, g);
  }

  lemma OneRestriction(q: Request, g: RecordGrant)
    requires Addressed(q, g) && g.effect == Restricts && g.target.Some?
    ensures RestrictedTargets(q, [g]) == {g.target.value}
  {
    hide Addressed;
    assert g in [g];
  }

  lemma BareCaseSeen(catalogue: Catalogue, a: Resolved, target: Target)
    requires !a.isOwner && !a.isClientPrincipal && a.restricted == {target}
    requires HasPermission(a, "cases.view") && a.scopes == map[]
    requires target != OnCase(1)
    ensures CanAccessCase(catalogue, a, BareCase(), "cases.view")
  {
    assert TargetsOf(catalogue, BareCase()) == {OnCase(1)};
  }

  /** Someone kept from one client sees every case without a client on its own
      page and in no listing. */
  lemma GapClient(defaults: RoleDefaults, catalogue: Catalogue) returns (q: Request, row: CaseRow)
    ensures row.clientId.None? && Resolution(defaults, q).restricted == {OnClient(7)}
    ensures var a := Resolution(defaults, q);
      CanAccessCase(catalogue, a, row, "cases.view")
      && !CaseFilter.Selects(CaseFilter.Compiled(catalogue, a, "cases.view"), row)
  {
    q, row := KeptFrom(OnClient(7)), BareCase();
    var a := Resolution(defaults, q);
    assert a.restricted == {OnClient(7)} ==> 7 in CaseFilter.ClientIds(a.restricted);
    assert CaseFilter.ClientIds(a.restricted) != {} ==> CaseFilter.Gap(catalogue, a, row, "cases.view");
    assert !IsOwner(q.principal);
    hide *;
    KeptFromRestricted(defaults, OnClient(7));
    BareCaseSeen(catalogue, a, OnClient(7));
    ResolvedListingExact(defaults, catalogue, q, row, "cases.view");
  }

  /** The same with a service: the case has no service code yet. */
  lemma GapService(defaults: RoleDefaults, catalogue: Catalogue) returns (q: Request, row: CaseRow)
    ensures row.serviceCode.None? && Resolution(defaults, q).restricted == {OnService("N-400")}
    ensures var a := Resolution(defaults, q);
      CanAccessCase(catalogue, a, row, "cases.view")
      && !CaseFilter.Selects(CaseFilter.Compiled(catalogue, a, "cases.view"), row)
  {
    var service := OnService("N-400");
    q, row := KeptFrom(service), BareCase();
    var a := Resolution(defaults, q);
    assert a.restricted == {service} ==> "N-400" in CaseFilter.ServiceCodes(catalogue, a.restricted);
    assert CaseFilter.ServiceCodes(catalogue, a.restricted) != {} ==> CaseFilter.Gap(catalogue, a, row, "cases.view");
    assert !IsOwner(q.principal);
    hide *;
    KeptFromRestricted(defaults, service);
    BareCaseSeen(catalogue, a, service);
    ResolvedListingExact(defaults, catalogue, q, row, "cases.view");
  }

  /** Someone scoped to their own cases, and a case assigned to them by name
      alone. */
  lemma GapLabel(defaults: RoleDefaults, catalogue: Catalogue) returns (q: Request, row: CaseRow)
    ensures row.assignedTo in q.principal.labels && Resolution(defaults, q).restricted == {}
    ensures var a := Resolution(defaults, q);
      CanAccessCase(catalogue, a, row, "cases.view")
      && !CaseFilter.Selects(CaseFilter.Compiled(catalogue, a, "cases.view"), row)
  {
    var scopes := map["cases" := Assigned];
    q, row := Clerk([], scopes), CaseRow(1, None, None, None, "a@example.org", None);
    var a := Resolution(defaults, q);
    ClerkAccess(defaults, [], scopes);
    CasesModule();
    assert !a.isOwner && !IsOwner(q.principal) && a.restricted == {} && a.allowances == map[];
    assert a.labels == q.principal.labels && a.assignedCaseIds == {} && a.userId == Some(1);
    LabelOnly(catalogue, a, row);
    hide *;
    ResolvedListingExact(defaults, catalogue, q, row, "cases.view");
  }

  lemma LabelOnly(catalogue: Catalogue, a: Resolved, row: CaseRow)
    requires !a.isOwner && a.restricted == {} && a.allowances == map[] && a.assignedCaseIds == {}
    requires HasPermission(a, "cases.view") && a.scopes == map["cases" := Assigned]
    requires ModuleOf("cases.view") == "cases"
    requires row.assignedTo != "" && row.assignedTo in a.labels && row.assignedUserId.None?
    ensures CanAccessCase(catalogue, a, row, "cases.view")
    ensures CaseFilter.Gap(catalogue, a, row, "cases.view")
  {
    hide ModuleOf;
    assert CaseFilter.OnlyByLabel(catalogue, a, row, "cases.view");
  }

  lemma CasesModule()
    ensures ModuleOf("cases.view") == "cases"
  {
    var p := "cases.view";
    assert p[1..] == "ases.view" && "ases.view"[1..] == "ses.view" && "ses.view"[1..] == "es.view";
    assert "es.view"[1..] == "s.view" && "s.view"[1..] == ".view";
    assert FirstSegment(".view") == "" && FirstSegment("s.view") == "s" && FirstSegment("es.view") == "es";
    assert FirstSegment("ses.view") == "ses" && FirstSegment("ases.view") == "ases" && FirstSegment(p) == "cases";
  }
}

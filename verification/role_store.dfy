/** The role store: add, update, delete and duplicate roles, the edit guard,
    and the aggregate statistics shown above the roles table. The store is
    the ordered list of roles; each operation returns the next list. The
    clock and id source are parameters (`freshId`, `today`). */
module RoleStore {
  import opened Seqs
  import opened Results
  import opened Role

  /** Why an operation was refused; the dashboard shows these as alerts. */
  datatype RoleError =
    | SystemRoleNotEditable   // "System roles cannot be edited"
    | CannotDeleteSystemRole  // "Cannot delete system roles"
    | RoleHasMembers          // "Cannot delete role with active members. ..."

  datatype RoleStats = RoleStats(totalRoles: nat, customRoles: nat, totalMembers: nat, avgPermissions: nat)

  // ---------------------------------------------------------------------------
  // Resolving permission ids against the catalog

  /** The permissions of `ps` whose id is listed in `ids`, in the order of `ps`. */
  function SelectByIds(ps: seq<Permission>, ids: seq<string>): seq<Permission>
    decreases |ps|
  {
    if |ps| == 0 then []
    else if ps[0].id in ids then [ps[0]] + SelectByIds(ps[1..], ids)
    else SelectByIds(ps[1..], ids)
  }

  /** Selecting by ids keeps exactly the listed permissions, every copy of
      them, in order, and keeps ids unique. */
  lemma SelectByIdsMembership(ps: seq<Permission>, ids: seq<string>)
    ensures forall p :: p in SelectByIds(ps, ids) <==> p in ps && p.id in ids
    ensures forall p :: multiset(SelectByIds(ps, ids))[p] == if p.id in ids then multiset(ps)[p] else 0
    ensures IsSubsequence(SelectByIds(ps, ids), ps)
    ensures UniqueIds(ps) ==> UniqueIds(SelectByIds(ps, ids))
  {
    SelectByIdsSelects(ps, ids);
    SelectByIdsCounts(ps, ids);
  }

  lemma {:induction false} SelectByIdsSelects(ps: seq<Permission>, ids: seq<string>)
    ensures forall p :: p in SelectByIds(ps, ids) <==> p in ps && p.id in ids
    ensures IsSubsequence(SelectByIds(ps, ids), ps)
    ensures UniqueIds(ps) ==> UniqueIds(SelectByIds(ps, ids))
    decreases |ps|
  {
    if |ps| > 0 {
      SelectByIdsSelects(ps[1..], ids);
      assert forall p :: p in ps <==> p == ps[0] || p in ps[1..];
      assert UniqueIds(ps) ==> UniqueIds(ps[1..]) && forall q :: q in ps[1..] ==> q.id != ps[0].id;
    }
  }

  lemma {:induction false} SelectByIdsCounts(ps: seq<Permission>, ids: seq<string>)
    ensures forall p :: multiset(SelectByIds(ps, ids))[p] == if p.id in ids then multiset(ps)[p] else 0
    decreases |ps|
  {
    if |ps| > 0 {
      SelectByIdsCounts(ps[1..], ids);
      assert ps == [ps[0]] + ps[1..];
      assert multiset(ps) == multiset{ps[0]} + multiset(ps[1..]);
      if ps[0].id in ids {
        assert multiset(SelectByIds(ps, ids)) == multiset{ps[0]} + multiset(SelectByIds(ps[1..], ids));
      }
    }
  }

  /** The permission records a role form's ids stand for: the catalog
      filtered by membership in the submitted ids. */
  function Resolve(ids: seq<string>): seq<Permission> {
    SelectByIds(Catalog, ids)
  }

  /** Resolution keeps catalog order, never duplicates a permission, keeps
      every known id and silently drops unknown ones. */
  lemma ResolveSpec(ids: seq<string>)
    ensures forall p :: p in Resolve(ids) <==> p in Catalog && p.id in ids
    ensures IsCatalogSelection(Resolve(ids))
    ensures UniqueIds(Resolve(ids))
    ensures forall id :: id in IdsOf(Resolve(ids)) <==> id in ids && id in IdsOf(Catalog)
  {
    SelectByIdsSelects(Catalog, ids);
    CatalogUniqueIds();
    var r := Resolve(ids);
    forall id
      ensures id in IdsOf(r) <==> id in ids && id in IdsOf(Catalog)
    {
      if id in ids && id in IdsOf(Catalog) {
        var k :| 0 <= k < |Catalog| && Catalog[k].id == id;
        assert Catalog[k] in r;
        var j :| 0 <= j < |r| && r[j] == Catalog[k];
        assert IdsOf(r)[j] == id;
      }
    }
  }

  // ---------------------------------------------------------------------------
  // The store invariant

  /** Permissions drawn from the catalog, in catalog order, each at most once. */
  predicate IsCatalogSelection(ps: seq<Permission>) {
    IsSubsequence(ps, Catalog)
  }

  predicate UniqueRoleIds(roles: seq<Role>) {
    forall i, j :: 0 <= i < j < |roles| ==> roles[i].id != roles[j].id
  }

  /** What every reachable role list satisfies: distinct role ids and
      catalog-drawn permissions. */
  predicate RoleInvariant(roles: seq<Role>) {
    && UniqueRoleIds(roles)
    && forall i :: 0 <= i < |roles| ==> IsCatalogSelection(roles[i].permissions)
  }

  predicate IdInUse(roles: seq<Role>, id: string) {
    exists i :: 0 <= i < |roles| && roles[i].id == id
  }

  // ---------------------------------------------------------------------------
  // Lookup

  /** `roles.find(r => r.id === id)` as a position: the first role with that id. */
  function FindIndex(roles: seq<Role>, id: string): (r: Option<nat>)
    ensures r.Some? ==> r.value < |roles| && roles[r.value].id == id
    ensures r.Some? ==> forall j :: 0 <= j < r.value ==> roles[j].id != id
    ensures r.None? <==> !IdInUse(roles, id)
    decreases |roles|
  {
    if |roles| == 0 then None
    else if roles[0].id == id then Some(0)
    else match FindIndex(roles[1..], id)
      case None => None
      case Some(k) => Some(k + 1)
  }

  function FindRole(roles: seq<Role>, id: string): Option<Role> {
    match FindIndex(roles, id)
    case None => None
    case Some(k) => Some(roles[k])
  }

  // ---------------------------------------------------------------------------
  // Operations

  /** `addRole`: append one new custom role with no members. */
  function AddRole(roles: seq<Role>, form: RoleFormData, freshId: string, today: string): (r: seq<Role>)
    requires !IdInUse(roles, freshId)
    ensures |r| == |roles| + 1 && r[..|roles|] == roles
    ensures r[|roles|].id == freshId
    ensures r[|roles|].name == form.name && r[|roles|].description == form.description
    ensures r[|roles|].permissions == Resolve(form.permissions)
    ensures r[|roles|].memberCount == 0 && !r[|roles|].isSystemRole
    ensures r[|roles|].createdAt == r[|roles|].updatedAt == today
  {
    roles + [Role(freshId, form.name, form.description, Resolve(form.permissions), 0, false, today, today)]
  }

  /** The role after `updateRole` rewrote its editable fields. */
  function Edited(role: Role, form: RoleFormData, today: string): Role {
    role.(name := form.name, description := form.description,
          permissions := Resolve(form.permissions), updatedAt := today)
  }

  /** `updateRole`: rewrite name, description, permissions and updatedAt of
      every role with the id. There is no system-role check here. */
  function UpdateRole(roles: seq<Role>, id: string, form: RoleFormData, today: string): (r: seq<Role>)
    ensures |r| == |roles|
    ensures forall i :: 0 <= i < |roles| && roles[i].id != id ==> r[i] == roles[i]
    ensures forall i :: 0 <= i < |roles| && roles[i].id == id ==>
      && r[i].id == roles[i].id
      && r[i].memberCount == roles[i].memberCount
      && r[i].isSystemRole == roles[i].isSystemRole
      && r[i].createdAt == roles[i].createdAt
      && r[i].name == form.name
      && r[i].description == form.description
      && r[i].permissions == Resolve(form.permissions)
      && r[i].updatedAt == today
    ensures !IdInUse(roles, id) ==> r == roles
  {
    seq(|roles|, i requires 0 <= i < |roles| => if roles[i].id == id then Edited(roles[i], form, today) else roles[i])
  }

  /** `editRole`: the only system-role guard on the edit path. A system role
      is refused; any other role is opened in the editor unchanged. */
  function EditRole(role: Role): (r: Result<Role, RoleError>)
    ensures r.Err? <==> role.isSystemRole
    ensures r.Err? ==> r.error == SystemRoleNotEditable
    ensures r.Ok? ==> r.value == role
  {
    if role.isSystemRole then Err(SystemRoleNotEditable) else Ok(role)
  }

  /** Opening a role in the editor and saving the form: `editRole`, then
      `updateRole` on the selected role's id. */
  function EditAndSave(roles: seq<Role>, role: Role, form: RoleFormData, today: string): (r: Result<seq<Role>, RoleError>)
    ensures role.isSystemRole ==> r == Err(SystemRoleNotEditable)
    ensures !role.isSystemRole ==> r == Ok(UpdateRole(roles, role.id, form, today))
  {
    match EditRole(role)
    case Err(e) => Err(e)
    case Ok(selected) => Ok(UpdateRole(roles, selected.id, form, today))
  }

  /** `roles.filter(role => role.id !== id)`. */
  function RemoveRole(roles: seq<Role>, id: string): (r: seq<Role>)
    ensures forall x :: x in r <==> x in roles && x.id != id
    ensures forall x :: multiset(r)[x] == if x.id != id then multiset(roles)[x] else 0
    ensures IsSubsequence(r, roles)
    ensures (forall i :: 0 <= i < |roles| ==> roles[i].id != id) ==> r == roles
    decreases |roles|
  {
    if |roles| == 0 then []
    else
      var rest := RemoveRole(roles[1..], id);
      RemoveRoleStep(roles, id, rest);
      if roles[0].id == id then rest else [roles[0]] + rest
  }

  /** One step of `RemoveRole`: from the result on the tail to the result on
      the whole list. */
  lemma RemoveRoleStep(roles: seq<Role>, id: string, rest: seq<Role>)
    requires |roles| > 0
    requires forall x :: x in rest <==> x in roles[1..] && x.id != id
    requires forall x :: multiset(rest)[x] == if x.id != id then multiset(roles[1..])[x] else 0
    requires IsSubsequence(rest, roles[1..])
    requires (forall i :: 0 <= i < |roles| - 1 ==> roles[1..][i].id != id) ==> rest == roles[1..]
    ensures var r := if roles[0].id == id then rest else [roles[0]] + rest;
      && (forall x :: x in r <==> x in roles && x.id != id)
      && (forall x :: multiset(r)[x] == if x.id != id then multiset(roles)[x] else 0)
      && IsSubsequence(r, roles)
      && ((forall i :: 0 <= i < |roles| ==> roles[i].id != id) ==> r == roles)
  {
    if roles[0].id == id {
      RemoveRoleDropHead(roles, id, rest);
    } else {
      RemoveRoleKeepHead(roles, id, rest);
    }
  }

  lemma RemoveRoleDropHead(roles: seq<Role>, id: string, rest: seq<Role>)
    requires |roles| > 0 && roles[0].id == id
    requires forall x :: x in rest <==> x in roles[1..] && x.id != id
    requires forall x :: multiset(rest)[x] == if x.id != id then multiset(roles[1..])[x] else 0
    requires IsSubsequence(rest, roles[1..])
    ensures forall x :: x in rest <==> x in roles && x.id != id
    ensures forall x :: multiset(rest)[x] == if x.id != id then multiset(roles)[x] else 0
    ensures IsSubsequence(rest, roles)
  {
    assert roles == [roles[0]] + roles[1..];
    assert multiset(roles) == multiset{roles[0]} + multiset(roles[1..]);
    SubsequenceExtendLeft(rest, [roles[0]], roles[1..]);
  }

  lemma RemoveRoleKeepHead(roles: seq<Role>, id: string, rest: seq<Role>)
    requires |roles| > 0 && roles[0].id != id
    requires forall x :: x in rest <==> x in roles[1..] && x.id != id
    requires forall x :: multiset(rest)[x] == if x.id != id then multiset(roles[1..])[x] else 0
    requires IsSubsequence(rest, roles[1..])
    requires (forall i :: 0 <= i < |roles| - 1 ==> roles[1..][i].id != id) ==> rest == roles[1..]
    ensures var r := [roles[0]] + rest;
      && (forall x :: x in r <==> x in roles && x.id != id)
      && (forall x :: multiset(r)[x] == if x.id != id then multiset(roles)[x] else 0)
      && IsSubsequence(r, roles)
      && ((forall i :: 0 <= i < |roles| ==> roles[i].id != id) ==> r == roles)
  {
    var r := [roles[0]] + rest;
    assert roles == [roles[0]] + roles[1..];
    assert multiset(roles) == multiset{roles[0]} + multiset(roles[1..]);
    assert multiset(r) == multiset{roles[0]} + multiset(rest);
    assert r[1..] == rest;
    assert forall x :: x in roles <==> x == roles[0] || x in roles[1..];
    assert forall x :: x in r <==> x == roles[0] || x in rest;
    assert (forall i :: 0 <= i < |roles| ==> roles[i].id != id) ==>
      forall i :: 0 <= i < |roles| - 1 ==> roles[1..][i].id != id;
  }

  /** Removing roles keeps the remaining ids distinct. */
  lemma {:induction false} RemoveRoleUnique(roles: seq<Role>, id: string)
    requires UniqueRoleIds(roles)
    ensures UniqueRoleIds(RemoveRole(roles, id))
    decreases |roles|
  {
    if |roles| > 0 {
      RemoveRoleUnique(roles[1..], id);
      assert forall q :: q in roles[1..] ==> q.id != roles[0].id;
    }
  }

  /** `deleteRole`: the system-role check comes first, then the member-count
      check; a role passing both is removed together with every other role
      of that id. An unknown id leaves the list as it is. */
  function DeleteRole(roles: seq<Role>, id: string): (r: Result<seq<Role>, RoleError>)
    ensures r == Err(CannotDeleteSystemRole) <==> FindRole(roles, id).Some? && FindRole(roles, id).value.isSystemRole
    ensures r == Err(RoleHasMembers) <==>
      FindRole(roles, id).Some? && !FindRole(roles, id).value.isSystemRole && FindRole(roles, id).value.memberCount > 0
    ensures r.Ok? <==>
      (FindRole(roles, id).None? || (!FindRole(roles, id).value.isSystemRole && FindRole(roles, id).value.memberCount == 0))
    ensures r.Ok? ==> forall x :: x in r.value <==> x in roles && x.id != id
    ensures r.Ok? ==> forall x :: multiset(r.value)[x] == if x.id != id then multiset(roles)[x] else 0
    ensures r.Ok? ==> IsSubsequence(r.value, roles)
  {
    match FindRole(roles, id)
    case Some(role) =>
      if role.isSystemRole then Err(CannotDeleteSystemRole)
      else if role.memberCount > 0 then Err(RoleHasMembers)
      else Ok(RemoveRole(roles, id))
    case None =>
      SubsequenceReflexive(roles);
      Ok(roles)
  }

  /** The clone `duplicateRole` appends. */
  function Copy(role: Role, freshId: string, today: string): Role {
    role.(id := freshId, name := role.name + " (Copy)", memberCount := 0,
          isSystemRole := false, createdAt := today, updatedAt := today)
  }

  /** `duplicateRole`: append a custom copy of the first role with the id;
      an unknown id leaves the list as it is. */
  function DuplicateRole(roles: seq<Role>, id: string, freshId: string, today: string): (r: seq<Role>)
    requires !IdInUse(roles, freshId)
    ensures !IdInUse(roles, id) ==> r == roles
    ensures IdInUse(roles, id) ==> |r| == |roles| + 1 && r[..|roles|] == roles
  {
    match FindRole(roles, id)
    case None => roles
    case Some(source) => roles + [Copy(source, freshId, today)]
  }

  // ---------------------------------------------------------------------------
  // Statistics

  function MemberCounts(roles: seq<Role>): (xs: seq<int>)
    ensures |xs| == |roles|
    ensures forall i :: 0 <= i < |roles| ==> xs[i] == roles[i].memberCount
  {
    seq(|roles|, i requires 0 <= i < |roles| => roles[i].memberCount)
  }

  function PermissionCounts(roles: seq<Role>): (xs: seq<int>)
    ensures |xs| == |roles|
    ensures forall i :: 0 <= i < |roles| ==> xs[i] == |roles[i].permissions|
  {
    seq(|roles|, i requires 0 <= i < |roles| => |roles[i].permissions|)
  }

  function CustomFlags(roles: seq<Role>): (bs: seq<bool>)
    ensures |bs| == |roles|
    ensures forall i :: 0 <= i < |roles| ==> bs[i] == !roles[i].isSystemRole
  {
    seq(|roles|, i requires 0 <= i < |roles| => !roles[i].isSystemRole)
  }

  /** `Math.round(s / n)` for a non-negative ratio: the nearest integer,
      halves rounded up. */
  function RoundHalfUp(s: nat, n: nat): (r: nat)
    requires n > 0
    ensures 2 * n * r <= 2 * s + n < 2 * n * (r + 1)
  {
    var q := (2 * s + n) / (2 * n);
    assert 2 * n * q <= 2 * s + n < 2 * n * (q + 1) by {
      var m := (2 * s + n) % (2 * n);
      assert 2 * s + n == 2 * n * q + m && 0 <= m < 2 * n;
    }
    q
  }

  /** `getRoleStats`; the source divides by zero on an empty list, so the
      model asks for at least one role. */
  function GetRoleStats(roles: seq<Role>): (r: RoleStats)
    requires |roles| > 0
    ensures r.totalRoles == |roles|
    ensures r.customRoles == CountTrue(CustomFlags(roles))
    ensures r.customRoles <= r.totalRoles
    ensures r.customRoles == r.totalRoles <==> forall i :: 0 <= i < |roles| ==> !roles[i].isSystemRole
    ensures r.totalMembers == Sum(MemberCounts(roles))
    ensures var s := Sum(PermissionCounts(roles));
      2 * |roles| * r.avgPermissions <= 2 * s + |roles| < 2 * |roles| * (r.avgPermissions + 1)
  {
    SumNonNegative(MemberCounts(roles));
    SumNonNegative(PermissionCounts(roles));
    RoleStats(|roles|, CountTrue(CustomFlags(roles)), Sum(MemberCounts(roles)),
              RoundHalfUp(Sum(PermissionCounts(roles)), |roles|))
  }

  // ---------------------------------------------------------------------------
  // Properties of the store

  /** A role list survives `AddRole` with its invariant intact. */
  lemma AddRolePreservesInvariant(roles: seq<Role>, form: RoleFormData, freshId: string, today: string)
    requires RoleInvariant(roles) && !IdInUse(roles, freshId)
    ensures RoleInvariant(AddRole(roles, form, freshId, today))
  {
    ResolveSpec(form.permissions);
  }

  /** ... and `UpdateRole`, which never touches ids. */
  lemma UpdateRolePreservesInvariant(roles: seq<Role>, id: string, form: RoleFormData, today: string)
    requires RoleInvariant(roles)
    ensures RoleInvariant(UpdateRole(roles, id, form, today))
  {
    ResolveSpec(form.permissions);
  }

  /** ... and a successful `DeleteRole`. */
  lemma DeleteRolePreservesInvariant(roles: seq<Role>, id: string)
    requires RoleInvariant(roles) && DeleteRole(roles, id).Ok?
    ensures RoleInvariant(DeleteRole(roles, id).value)
  {
    if IdInUse(roles, id) {
      RemoveRoleUnique(roles, id);
      var r := RemoveRole(roles, id);
      forall i | 0 <= i < |r|
        ensures IsCatalogSelection(r[i].permissions)
      {
        assert r[i] in roles;
      }
    }
  }

  /** ... and `DuplicateRole`, whose copy shares the source's permissions. */
  lemma DuplicateRolePreservesInvariant(roles: seq<Role>, id: string, freshId: string, today: string)
    requires RoleInvariant(roles) && !IdInUse(roles, freshId)
    ensures RoleInvariant(DuplicateRole(roles, id, freshId, today))
  {
  }

  /** The copy `duplicateRole` appends: "(Copy)" name, same description and
      permissions, no members, custom, and an id no other role has. */
  lemma DuplicateRoleCopy(roles: seq<Role>, id: string, freshId: string, today: string)
    requires !IdInUse(roles, freshId) && IdInUse(roles, id)
    ensures var r := DuplicateRole(roles, id, freshId, today);
      var source := FindRole(roles, id).value;
      var copy := r[|roles|];
      && source in roles && source.id == id
      && copy.name == source.name + " (Copy)"
      && copy.description == source.description
      && copy.permissions == source.permissions
      && copy.memberCount == 0 && !copy.isSystemRole
      && copy.id == freshId && copy.id != source.id
      && copy.createdAt == copy.updatedAt == today
  {
  }

  /** Removing by id distributes over concatenation. */
  lemma {:induction false} RemoveRoleAppend(a: seq<Role>, b: seq<Role>, id: string)
    ensures RemoveRole(a + b, id) == RemoveRole(a, id) + RemoveRole(b, id)
    decreases |a|
  {
    if |a| > 0 {
      assert (a + b)[1..] == a[1..] + b;
      RemoveRoleAppend(a[1..], b, id);
    } else {
      assert a + b == b;
    }
  }

  /** A freshly added role can be deleted at once (it is custom and has no
      members), and deleting it gives back the list from before the add. */
  lemma AddThenDeleteRole(roles: seq<Role>, form: RoleFormData, freshId: string, today: string)
    requires !IdInUse(roles, freshId)
    ensures DeleteRole(AddRole(roles, form, freshId, today), freshId) == Ok(roles)
  {
    var added := AddRole(roles, form, freshId, today);
    var newRole := added[|roles|];
    assert added == roles + [newRole];
    assert IdInUse(added, freshId);
    assert forall j :: 0 <= j < |roles| ==> added[j].id != freshId;
    assert FindIndex(added, freshId) == Some(|roles|);
    assert FindRole(added, freshId) == Some(newRole);
    RemoveRoleAppend(roles, [newRole], freshId);
    assert RemoveRole(roles, freshId) == roles;
    assert RemoveRole([newRole], freshId) == [];
    assert RemoveRole(added, freshId) == roles;
    assert DeleteRole(added, freshId) == Ok(RemoveRole(added, freshId));
  }

  /** Adding a role adds one custom role and no members to the statistics. */
  lemma AddRoleStats(roles: seq<Role>, form: RoleFormData, freshId: string, today: string)
    requires |roles| > 0 && !IdInUse(roles, freshId)
    ensures var before := GetRoleStats(roles);
      var after := GetRoleStats(AddRole(roles, form, freshId, today));
      && after.totalRoles == before.totalRoles + 1
      && after.customRoles == before.customRoles + 1
      && after.totalMembers == before.totalMembers
  {
    var added := AddRole(roles, form, freshId, today);
    assert MemberCounts(added) == MemberCounts(roles) + [0];
    SumAppend(MemberCounts(roles), [0]);
    assert CustomFlags(added) == CustomFlags(roles) + [true];
    CountTrueAppend(CustomFlags(roles), [true]);
  }

  /** Removing roles whose member count is zero leaves the member total as it was. */
  lemma {:induction false} RemoveEmptyRolesKeepsMembers(roles: seq<Role>, id: string)
    requires forall i :: 0 <= i < |roles| && roles[i].id == id ==> roles[i].memberCount == 0
    ensures Sum(MemberCounts(RemoveRole(roles, id))) == Sum(MemberCounts(roles))
    decreases |roles|
  {
    if |roles| > 0 {
      var rest := RemoveRole(roles[1..], id);
      RemoveEmptyRolesKeepsMembers(roles[1..], id);
      MemberSumHead(roles);
      if roles[0].id != id {
        MemberSumHead([roles[0]] + rest);
        assert ([roles[0]] + rest)[1..] == rest;
      }
    }
  }

  lemma MemberSumHead(roles: seq<Role>)
    requires |roles| > 0
    ensures Sum(MemberCounts(roles)) == roles[0].memberCount + Sum(MemberCounts(roles[1..]))
  {
    assert MemberCounts(roles)[1..] == MemberCounts(roles[1..]);
  }

  /** With distinct ids, a delete that goes through never loses a member:
      the member check protects every role that still has members. */
  lemma DeleteKeepsTotalMembers(roles: seq<Role>, id: string)
    requires UniqueRoleIds(roles) && DeleteRole(roles, id).Ok?
    ensures Sum(MemberCounts(DeleteRole(roles, id).value)) == Sum(MemberCounts(roles))
  {
    if IdInUse(roles, id) {
      RemoveEmptyRolesKeepsMembers(roles, id);
    }
  }

  /** Updating the role selected in the editor never changes the member total
      or the number of custom roles. */
  lemma UpdateRoleKeepsCounts(roles: seq<Role>, id: string, form: RoleFormData, today: string)
    requires |roles| > 0
    ensures var before := GetRoleStats(roles);
      var after := GetRoleStats(UpdateRole(roles, id, form, today));
      after.totalRoles == before.totalRoles && after.customRoles == before.customRoles
      && after.totalMembers == before.totalMembers
  {
    var updated := UpdateRole(roles, id, form, today);
    assert MemberCounts(updated) == MemberCounts(roles);
    assert CustomFlags(updated) == CustomFlags(roles);
  }

  /** `updateRole` itself has no guard: it rewrites a system role too. Only
      `EditRole` keeps system roles out of the editor. */
  lemma UpdateRoleHasNoSystemGuard(role: Role, form: RoleFormData, today: string)
    requires role.isSystemRole && form.name != role.name
    ensures UpdateRole([role], role.id, form, today)[0].name == form.name
    ensures UpdateRole([role], role.id, form, today)[0].isSystemRole
    ensures EditAndSave([role], role, form, today) == Err(SystemRoleNotEditable)
  {
  }

  // ---------------------------------------------------------------------------
  // The four seeded roles

  /** `mockRoles`. Each permission list is the catalog filtered by the seed's
      condition, written here as the catalog blocks it keeps. */
  const SeedRoles: seq<Role> := [
    Role("1", "Administrator", "Full system access with all permissions",
         Catalog, 2, true, "2023-01-01", "2023-01-01"),
    Role("2", "Treasurer", "Financial management and reporting access",
         [MemberPermissions[0]] + FinancialPermissions + ReportPermissions, 1, false, "2023-01-15", "2023-02-10"),
    Role("3", "Secretary", "Member management and basic reporting",
         MemberPermissions + [ReportPermissions[0]], 1, false, "2023-01-20", "2023-01-20"),
    Role("4", "Member", "Basic member access with view-only permissions",
         [MemberPermissions[0], ReportPermissions[0]], 15, true, "2023-01-01", "2023-01-01")
  ]

  /** The conditions the three non-administrator seeds filter the catalog by. */
  datatype SeedRule = TreasurerRule | SecretaryRule | MemberRule

  /** The seed's condition on one permission. The Treasurer keeps every
      financial and report permission and viewing members; the Secretary
      keeps every member permission and viewing reports; the Member keeps
      viewing members and viewing reports. */
  predicate Keeps(rule: SeedRule, p: Permission) {
    match rule
    case TreasurerRule =>
      p.category == Financial || p.category == Reports || (p.category == Members && p.id == "members:view")
    case SecretaryRule =>
      p.category == Members || (p.category == Reports && p.id == "reports:view")
    case MemberRule =>
      p.id == "members:view" || p.id == "reports:view"
  }

  /** `ps.filter(...)` with a seed's condition: the accepted permissions, in order. */
  function SeedFilter(ps: seq<Permission>, rule: SeedRule): (r: seq<Permission>)
    ensures |r| <= |ps|
    decreases |ps|
  {
    if |ps| == 0 then []
    else (if Keeps(rule, ps[0]) then [ps[0]] else []) + SeedFilter(ps[1..], rule)
  }

  /** Filtering a concatenation filters each part. */
  lemma {:induction false} SeedFilterAppend(a: seq<Permission>, b: seq<Permission>, rule: SeedRule)
    ensures SeedFilter(a + b, rule) == SeedFilter(a, rule) + SeedFilter(b, rule)
    decreases |a|
  {
    if |a| == 0 {
      assert a + b == b;
    } else {
      var h := if Keeps(rule, a[0]) then [a[0]] else [];
      assert (a + b)[0] == a[0];
      assert (a + b)[1..] == a[1..] + b;
      SeedFilterAppend(a[1..], b, rule);
      calc {
        SeedFilter(a + b, rule);
        h + SeedFilter(a[1..] + b, rule);
        h + (SeedFilter(a[1..], rule) + SeedFilter(b, rule));
        (h + SeedFilter(a[1..], rule)) + SeedFilter(b, rule);
        SeedFilter(a, rule) + SeedFilter(b, rule);
      }
    }
  }

  /** A condition every element meets keeps the whole list. */
  lemma {:induction false} SeedFilterKeepsAll(ps: seq<Permission>, rule: SeedRule)
    requires forall i :: 0 <= i < |ps| ==> Keeps(rule, ps[i])
    ensures SeedFilter(ps, rule) == ps
    decreases |ps|
  {
    if |ps| > 0 {
      SeedFilterKeepsAll(ps[1..], rule);
    }
  }

  /** A condition no element meets keeps nothing. */
  lemma {:induction false} SeedFilterKeepsNone(ps: seq<Permission>, rule: SeedRule)
    requires forall i :: 0 <= i < |ps| ==> !Keeps(rule, ps[i])
    ensures SeedFilter(ps, rule) == []
    decreases |ps|
  {
    if |ps| > 0 {
      SeedFilterKeepsNone(ps[1..], rule);
    }
  }

  /** A condition only the head meets keeps only the head. */
  lemma SeedFilterKeepsHead(ps: seq<Permission>, rule: SeedRule)
    requires |ps| > 0 && Keeps(rule, ps[0])
    requires forall i :: 1 <= i < |ps| ==> !Keeps(rule, ps[i])
    ensures SeedFilter(ps, rule) == [ps[0]]
  {
    SeedFilterKeepsNone(ps[1..], rule);
  }

  /** The catalog filtered block by block, given what each block keeps. */
  lemma SeedFilterCatalog(rule: SeedRule, a: seq<Permission>, b: seq<Permission>,
                          c: seq<Permission>, d: seq<Permission>, e: seq<Permission>)
    requires SeedFilter(MemberPermissions, rule) == a
    requires SeedFilter(FinancialPermissions, rule) == b
    requires SeedFilter(ReportPermissions, rule) == c
    requires SeedFilter(SettingsPermissions, rule) == d
    requires SeedFilter(SystemPermissions, rule) == e
    ensures SeedFilter(Catalog, rule) == a + b + c + d + e
  {
    var m, f, r, st, sy := MemberPermissions, FinancialPermissions, ReportPermissions, SettingsPermissions, SystemPermissions;
    SeedFilterAppend(m + f + r + st, sy, rule);
    SeedFilterAppend(m + f + r, st, rule);
    SeedFilterAppend(m + f, r, rule);
    SeedFilterAppend(m, f, rule);
  }

  lemma AppendNothing(s: seq<Permission>)
    ensures s + [] == s
  {
  }

  /** The seeded permission lists are exactly the catalog filtered by each
      seed's condition; the Administrator holds the whole catalog. */
  lemma SeedPermissionsAreFilters()
    ensures SeedRoles[0].permissions == Catalog
    ensures SeedRoles[1].permissions == SeedFilter(Catalog, TreasurerRule)
    ensures SeedRoles[2].permissions == SeedFilter(Catalog, SecretaryRule)
    ensures SeedRoles[3].permissions == SeedFilter(Catalog, MemberRule)
  {
    TreasurerSeedFilter();
    SecretarySeedFilter();
    MemberSeedFilter();
  }

  lemma TreasurerSeedFilter()
    ensures SeedFilter(Catalog, TreasurerRule) == [MemberPermissions[0]] + FinancialPermissions + ReportPermissions
  {
    var m, f, r, st, sy := MemberPermissions, FinancialPermissions, ReportPermissions, SettingsPermissions, SystemPermissions;
    SeedFilterKeepsHead(m, TreasurerRule);
    SeedFilterKeepsAll(f, TreasurerRule);
    SeedFilterKeepsAll(r, TreasurerRule);
    SeedFilterKeepsNone(st, TreasurerRule);
    SeedFilterKeepsNone(sy, TreasurerRule);
    SeedFilterCatalog(TreasurerRule, [m[0]], f, r, [], []);
    AppendNothing([m[0]] + f + r);
    AppendNothing([m[0]] + f + r + []);
  }

  lemma SecretarySeedFilter()
    ensures SeedFilter(Catalog, SecretaryRule) == MemberPermissions + [ReportPermissions[0]]
  {
    var m, f, r, st, sy := MemberPermissions, FinancialPermissions, ReportPermissions, SettingsPermissions, SystemPermissions;
    SeedFilterKeepsAll(m, SecretaryRule);
    SeedFilterKeepsNone(f, SecretaryRule);
    SeedFilterKeepsHead(r, SecretaryRule);
    SeedFilterKeepsNone(st, SecretaryRule);
    SeedFilterKeepsNone(sy, SecretaryRule);
    SeedFilterCatalog(SecretaryRule, m, [], [r[0]], [], []);
    AppendNothing(m);
    AppendNothing(m + [r[0]]);
    AppendNothing(m + [r[0]] + []);
  }

  lemma MemberSeedFilter()
    ensures SeedFilter(Catalog, MemberRule) == [MemberPermissions[0], ReportPermissions[0]]
  {
    var m, f, r, st, sy := MemberPermissions, FinancialPermissions, ReportPermissions, SettingsPermissions, SystemPermissions;
    SeedFilterKeepsHead(m, MemberRule);
    SeedFilterKeepsNone(f, MemberRule);
    SeedFilterKeepsHead(r, MemberRule);
    SeedFilterKeepsNone(st, MemberRule);
    SeedFilterKeepsNone(sy, MemberRule);
    SeedFilterCatalog(MemberRule, [m[0]], [], [r[0]], [], []);
    AppendNothing([m[0]]);
    AppendNothing([m[0]] + [r[0]]);
    AppendNothing([m[0]] + [r[0]] + []);
    assert [m[0]] + [r[0]] == [m[0], r[0]];
  }

  /** The seeded statistics: 4 roles, 2 custom, 19 members, and permission
      counts 15, 8, 5 and 2 whose mean 7.5 rounds to 8. */
  lemma SeedRoleStats()
    ensures PermissionCounts(SeedRoles) == [15, 8, 5, 2]
    ensures GetRoleStats(SeedRoles) == RoleStats(4, 2, 19, 8)
  {
    assert MemberCounts(SeedRoles) == [2, 1, 1, 15];
    assert PermissionCounts(SeedRoles) == [15, 8, 5, 2];
    assert CustomFlags(SeedRoles) == [false, true, true, false];
    assert Sum([2, 1, 1, 15]) == 19;
    assert Sum([15, 8, 5, 2]) == 30;
    assert CountTrue([false, true, true, false]) == 2;
    assert RoundHalfUp(30, 4) == 8;
  }

  /** Deleting the seeded Administrator or Member role is refused as a system
      role, the Member role even though it also has members; the Treasurer is
      refused for its member. */
  lemma SeedDeleteScenarios()
    ensures DeleteRole(SeedRoles, "1") == Err(CannotDeleteSystemRole)
    ensures DeleteRole(SeedRoles, "4") == Err(CannotDeleteSystemRole)
    ensures DeleteRole(SeedRoles, "2") == Err(RoleHasMembers)
    ensures DeleteRole(SeedRoles, "9") == Ok(SeedRoles)
  {
    assert FindRole(SeedRoles, "1") == Some(SeedRoles[0]);
    assert FindRole(SeedRoles, "2") == Some(SeedRoles[1]) by {
      assert SeedRoles[1..][0].id == "2";
    }
    assert FindRole(SeedRoles, "4") == Some(SeedRoles[3]) by {
      assert SeedRoles[1..][1..][1..][0].id == "4";
      assert FindIndex(SeedRoles[1..][1..][1..], "4") == Some(0);
      assert FindIndex(SeedRoles[1..][1..], "4") == Some(1);
      assert FindIndex(SeedRoles[1..], "4") == Some(2);
    }
  }

  /** Taking a subsequence keeps permission ids distinct: a catalog
      selection never holds a permission twice. */
  lemma {:induction false} SelectionUniqueIds(ps: seq<Permission>, qs: seq<Permission>)
    requires IsSubsequence(ps, qs) && UniqueIds(qs)
    ensures UniqueIds(ps)
    decreases |qs|
  {
    if |ps| > 0 {
      assert UniqueIds(qs[1..]);
      if ps[0] == qs[0] && IsSubsequence(ps[1..], qs[1..]) {
        SelectionUniqueIds(ps[1..], qs[1..]);
        SubsequenceElems(ps[1..], qs[1..]);
        assert forall q :: q in qs[1..] ==> q.id != qs[0].id;
        assert forall j :: 1 <= j < |ps| ==> ps[j] in ps[1..];
      } else {
        SelectionUniqueIds(ps, qs[1..]);
      }
    }
  }

  /** The seeded roles satisfy the store invariant. */
  lemma SeedRolesInvariant()
    ensures RoleInvariant(SeedRoles)
  {
    var m, f, r, st, sy := MemberPermissions, FinancialPermissions, ReportPermissions, SettingsPermissions, SystemPermissions;
    var e: seq<Permission> := [];
    var m0, r0 := [m[0]], [r[0]];
    assert IsSubsequence(m0, m);
    assert IsSubsequence(r0, r);
    assert IsSubsequence(e, f);
    SubsequenceReflexive(m);
    SubsequenceReflexive(f);
    SubsequenceReflexive(r);
    SubsequenceReflexive(Catalog);
    // Treasurer
    SubsequenceConcat(m0, m, f, f);
    SubsequenceConcat(m0 + f, m + f, r, r);
    SubsequenceExtendRight(m0 + f + r, m + f + r, st);
    SubsequenceExtendRight(m0 + f + r, m + f + r + st, sy);
    // Secretary
    SubsequenceExtendRight(m, m, f);
    SubsequenceConcat(m, m + f, r0, r);
    SubsequenceExtendRight(m + r0, m + f + r, st);
    SubsequenceExtendRight(m + r0, m + f + r + st, sy);
    // Member
    SubsequenceConcat(m0, m, e, f);
    SubsequenceConcat(m0 + e, m + f, r0, r);
    assert m0 + e + r0 == [m[0], r[0]];
    SubsequenceExtendRight(m0 + e + r0, m + f + r, st);
    SubsequenceExtendRight(m0 + e + r0, m + f + r + st, sy);
  }
}

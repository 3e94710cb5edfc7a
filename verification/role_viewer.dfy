/** The read-only role dialog (`ViewRoleModal`): nothing for no role;
    otherwise the role's header, its counters and its permissions grouped by
    category with a per-group count label. */
module RoleViewer {
  import opened Seqs
  import opened Text
  import opened Results
  import opened Role
  import opened RoleStore
  import opened PermissionGroups

  datatype GroupView = GroupView(category: Category, countLabel: string, permissions: seq<Permission>)

  datatype RoleView = RoleView(
    name: string,
    description: string,
    badge: string,
    memberCount: nat,
    totalPermissions: nat,
    groups: seq<GroupView>)

  /** `n permission` or `n permissions`: the plural unless exactly one. */
  function CountLabel(n: nat): string {
    Decimal(n) + (if n == 1 then " permission" else " permissions")
  }

  /** The label starts with the count itself and ends in an `s` exactly
      when the count is not one. */
  lemma CountLabelReadsBack(n: nat)
    ensures var text := CountLabel(n);
      && |Decimal(n)| < |text|
      && ParseDecimal(text[..|Decimal(n)|]) == n
      && (text[|text| - 1] == 's' <==> n != 1)
  {
    var text := CountLabel(n);
    assert text[..|Decimal(n)|] == Decimal(n);
    ParseDecimalInverse(n);
  }

  function ViewGroups(gs: seq<Group>): (vs: seq<GroupView>)
    ensures |vs| == |gs|
    ensures forall i :: 0 <= i < |gs| ==>
      vs[i].category == gs[i].category && vs[i].permissions == gs[i].permissions
  {
    seq(|gs|, i requires 0 <= i < |gs| =>
      GroupView(gs[i].category, CountLabel(|gs[i].permissions|), gs[i].permissions))
  }

  function Badge(isSystemRole: bool): string {
    if isSystemRole then "System Role" else "Custom Role"
  }

  /** The dialog for the selected role, or nothing when none is selected.
      Every permission of the role appears in exactly the group of its
      category, and groups are distinct and non-empty; their order is
      stated by `ViewGroupOrder`. */
  function ViewRole(role: Option<Role>): (r: Option<RoleView>)
    ensures r.None? <==> role.None?
    ensures r.Some? ==>
      && r.value.name == role.value.name
      && r.value.description == role.value.description
      && (r.value.badge == "System Role" <==> role.value.isSystemRole)
      && r.value.memberCount == role.value.memberCount
      && r.value.totalPermissions == |role.value.permissions|
    ensures r.Some? ==> var gs := r.value.groups;
      && (forall i, j :: 0 <= i < j < |gs| ==> gs[i].category != gs[j].category)
      && (forall i :: 0 <= i < |gs| ==>
            gs[i].permissions == InCategory(role.value.permissions, gs[i].category)
            && |gs[i].permissions| > 0
            && gs[i].countLabel == CountLabel(|gs[i].permissions|))
      && (forall p :: p in role.value.permissions ==> exists i :: 0 <= i < |gs| && gs[i].category == p.category)
  {
    match role
    case None => None
    case Some(rl) =>
      var grouped := GroupByCategory(rl.permissions);
      GroupByCategoryGroups(rl.permissions);
      assert forall i :: 0 <= i < |grouped| ==> GroupCategories(grouped)[i] == grouped[i].category;
      Some(RoleView(rl.name, rl.description, Badge(rl.isSystemRole), rl.memberCount,
                    |rl.permissions|, ViewGroups(grouped)))
  }

  /** The dialog lists the groups in the order their categories first occur
      in the role's permissions. */
  lemma ViewGroupOrder(role: Role)
    ensures var gs := ViewRole(Some(role)).value.groups;
      forall i, j :: 0 <= i < j < |gs| ==>
        FirstBefore(CategoriesOf(role.permissions), gs[i].category, gs[j].category)
  {
    var grouped := GroupByCategory(role.permissions);
    var gs := ViewRole(Some(role)).value.groups;
    assert gs == ViewGroups(grouped);
    forall i, j | 0 <= i < j < |gs|
      ensures FirstBefore(CategoriesOf(role.permissions), gs[i].category, gs[j].category)
    {
      assert gs[i].category == grouped[i].category && gs[j].category == grouped[j].category;
      GroupFirstBefore(role.permissions, i, j);
    }
  }

  function GroupViewSizes(vs: seq<GroupView>): (ns: seq<int>)
    ensures |ns| == |vs|
  {
    seq(|vs|, i requires 0 <= i < |vs| => |vs[i].permissions|)
  }

  /** "Total Permissions" agrees with the groups: their sizes add up to it. */
  lemma ViewTotalsAgree(role: Role)
    ensures var v := ViewRole(Some(role)).value;
      Sum(GroupViewSizes(v.groups)) == v.totalPermissions
  {
    var grouped := GroupByCategory(role.permissions);
    GroupByCategoryGroups(role.permissions);
    assert GroupViewSizes(ViewRole(Some(role)).value.groups) == GroupSizes(grouped);
  }

  /** The seeded Administrator's dialog shows the catalog's grouping. */
  lemma SeedAdministratorGroups()
    ensures ViewRole(Some(SeedRoles[0])).value.groups == ViewGroups(GroupByCategory(Catalog))
    ensures ViewRole(Some(SeedRoles[0])).value.badge == "System Role"
    ensures ViewRole(Some(SeedRoles[0])).value.totalPermissions == |Catalog|
  {
    assert SeedRoles[0].permissions == Catalog && SeedRoles[0].isSystemRole;
  }

  /** The seeded Administrator holds the whole catalog, shown as its five
      categories in catalog order with 4, 4, 3, 2 and 2 permissions. */
  lemma ViewSeedAdministrator()
    ensures var v := ViewRole(Some(SeedRoles[0])).value;
      && v.badge == "System Role"
      && v.totalPermissions == 15
      && |v.groups| == 5
      && [v.groups[0].category, v.groups[1].category, v.groups[2].category,
          v.groups[3].category, v.groups[4].category] == [Members, Financial, Reports, Settings, System]
      && GroupViewSizes(v.groups) == [4, 4, 3, 2, 2]
  {
    SeedAdministratorGroups();
    CatalogGrouping();
    CatalogUniqueIds();
    var gs := GroupByCategory(Catalog);
    var vs := ViewGroups(gs);
    assert GroupViewSizes(vs) == [|gs[0].permissions|, |gs[1].permissions|, |gs[2].permissions|,
                                  |gs[3].permissions|, |gs[4].permissions|];
  }
}

/** Grouping a permission list by category, as both role modals do with a
    `reduce` into an object keyed by category: groups appear in the order
    their category first occurs, and each keeps its permissions in list order. */
module PermissionGroups {
  import opened Seqs
  import opened Results
  import opened Role

  datatype Group = Group(category: Category, permissions: seq<Permission>)

  function GroupCategories(gs: seq<Group>): (cs: seq<Category>)
    ensures |cs| == |gs|
    ensures forall i :: 0 <= i < |gs| ==> cs[i] == gs[i].category
  {
    seq(|gs|, i requires 0 <= i < |gs| => gs[i].category)
  }

  /** The category of each permission, in list order. */
  function CategoriesOf(ps: seq<Permission>): (cs: seq<Category>)
    ensures |cs| == |ps|
    ensures forall i :: 0 <= i < |ps| ==> cs[i] == ps[i].category
  {
    seq(|ps|, i requires 0 <= i < |ps| => ps[i].category)
  }

  function GroupSizes(gs: seq<Group>): (ns: seq<int>)
    ensures |ns| == |gs|
    ensures forall i :: 0 <= i < |gs| ==> ns[i] == |gs[i].permissions|
  {
    seq(|gs|, i requires 0 <= i < |gs| => |gs[i].permissions|)
  }

  /** `acc[c]`: the position of the group of category `c`, if there is one. */
  function FindGroup(gs: seq<Group>, c: Category): (r: Option<nat>)
    ensures r.Some? ==> r.value < |gs| && gs[r.value].category == c
    ensures r.None? ==> c !in GroupCategories(gs)
    decreases |gs|
  {
    if |gs| == 0 then None
    else if gs[0].category == c then Some(0)
    else match FindGroup(gs[1..], c)
      case None =>
        assert GroupCategories(gs) == [gs[0].category] + GroupCategories(gs[1..]);
        None
      case Some(k) => Some(k + 1)
  }

  /** `acc[p.category].push(p)`, creating the group at the end when absent. */
  function AddToGroups(gs: seq<Group>, p: Permission): seq<Group> {
    match FindGroup(gs, p.category)
    case Some(k) => gs[k := gs[k].(permissions := gs[k].permissions + [p])]
    case None => gs + [Group(p.category, [p])]
  }

  /** The `reduce` over the list, one permission at a time from an empty object. */
  function GroupByCategory(ps: seq<Permission>): seq<Group>
    decreases |ps|
  {
    if |ps| == 0 then [] else AddToGroups(GroupByCategory(ps[..|ps| - 1]), ps[|ps| - 1])
  }

  /** What a grouping of `ps` is: one group per category that occurs and no
      other group, each holding exactly the list's permissions of its
      category in list order, so no group is empty. The order of the groups
      is stated separately, by `GroupByCategoryOrder`. */
  predicate IsGroupingOf(gs: seq<Group>, ps: seq<Permission>) {
    && NoDup(GroupCategories(gs))
    && (forall i :: 0 <= i < |gs| ==> gs[i].permissions == InCategory(ps, gs[i].category))
    && (forall p :: p in ps ==> p.category in GroupCategories(gs))
    && (forall i :: 0 <= i < |gs| ==> |gs[i].permissions| > 0)
  }

  /** Filtering a list extended by one permission. */
  lemma InCategorySnoc(ps: seq<Permission>, p: Permission, c: Category)
    ensures InCategory(ps + [p], c) == InCategory(ps, c) + (if p.category == c then [p] else [])
  {
    InCategoryAppend(ps, [p], c);
    assert [p][1..] == [];
  }

  /** The permission's category already has a group: that group gets the
      permission at its end and nothing else changes. */
  lemma AddToExistingGroup(gs: seq<Group>, ps: seq<Permission>, p: Permission, k: nat)
    requires IsGroupingOf(gs, ps)
    requires FindGroup(gs, p.category) == Some(k)
    ensures IsGroupingOf(AddToGroups(gs, p), ps + [p])
    ensures Sum(GroupSizes(AddToGroups(gs, p))) == Sum(GroupSizes(gs)) + 1
  {
    var r := AddToGroups(gs, p);
    assert r == gs[k := gs[k].(permissions := gs[k].permissions + [p])];
    assert GroupCategories(r) == GroupCategories(gs);
    forall i | 0 <= i < |r|
      ensures r[i].permissions == InCategory(ps + [p], r[i].category)
    {
      InCategorySnoc(ps, p, r[i].category);
      if i != k {
        assert gs[i].category != gs[k].category by {
          assert GroupCategories(gs)[i] != GroupCategories(gs)[k];
        }
      }
    }
    assert GroupSizes(r) == GroupSizes(gs)[k := |gs[k].permissions| + 1];
    SumUpdate(GroupSizes(gs), k, |gs[k].permissions| + 1);
  }

  /** The categories of a list extended by one permission, deduplicated. */
  lemma CategoriesSnoc(ps: seq<Permission>, p: Permission)
    ensures Dedup(CategoriesOf(ps + [p]))
         == if p.category in Dedup(CategoriesOf(ps)) then Dedup(CategoriesOf(ps))
            else Dedup(CategoriesOf(ps)) + [p.category]
  {
    assert CategoriesOf(ps + [p]) == CategoriesOf(ps) + [p.category];
    DedupSnoc(CategoriesOf(ps), p.category);
  }

  /** A category none of whose permissions occur filters to nothing. */
  lemma {:induction false} InCategoryAbsent(ps: seq<Permission>, c: Category)
    requires forall p :: p in ps ==> p.category != c
    ensures InCategory(ps, c) == []
    decreases |ps|
  {
    if |ps| > 0 {
      assert ps[0] in ps;
      InCategoryAbsent(ps[1..], c);
    }
  }

  /** The permission's category has no group yet: a new one-element group is
      appended after the existing ones. */
  lemma AddToNewGroup(gs: seq<Group>, ps: seq<Permission>, p: Permission)
    requires IsGroupingOf(gs, ps)
    requires FindGroup(gs, p.category) == None
    ensures IsGroupingOf(AddToGroups(gs, p), ps + [p])
    ensures Sum(GroupSizes(AddToGroups(gs, p))) == Sum(GroupSizes(gs)) + 1
  {
    var r := AddToGroups(gs, p);
    assert r == gs + [Group(p.category, [p])];
    assert p.category !in GroupCategories(gs);
    assert GroupCategories(r) == GroupCategories(gs) + [p.category];
    InCategoryAbsent(ps, p.category);
    forall i | 0 <= i < |r|
      ensures r[i].permissions == InCategory(ps + [p], r[i].category)
    {
      InCategorySnoc(ps, p, r[i].category);
      if i < |gs| {
        assert GroupCategories(gs)[i] == gs[i].category;
      }
    }
    assert GroupSizes(r) == GroupSizes(gs) + [1];
    SumAppend(GroupSizes(gs), [1]);
    assert Sum([1]) == 1;
  }

  /** Adding one permission to a grouping of `ps` gives a grouping of
      `ps + [p]` with one more permission in it. */
  lemma AddToGroupsSpec(gs: seq<Group>, ps: seq<Permission>, p: Permission)
    requires IsGroupingOf(gs, ps)
    ensures IsGroupingOf(AddToGroups(gs, p), ps + [p])
    ensures Sum(GroupSizes(AddToGroups(gs, p))) == Sum(GroupSizes(gs)) + 1
  {
    match FindGroup(gs, p.category)
    case Some(k) => AddToExistingGroup(gs, ps, p, k);
    case None => AddToNewGroup(gs, ps, p);
  }

  /** `GroupByCategory` is a grouping of its input whose groups follow the
      first occurrence of their categories, and the group sizes add up to the
      input's length. */
  lemma GroupByCategorySpec(ps: seq<Permission>)
    ensures IsGroupingOf(GroupByCategory(ps), ps)
    ensures Sum(GroupSizes(GroupByCategory(ps))) == |ps|
    ensures var gs := GroupByCategory(ps);
      forall i, j :: 0 <= i < j < |gs| ==> FirstBefore(CategoriesOf(ps), gs[i].category, gs[j].category)
  {
    GroupByCategoryGroups(ps);
    GroupByCategoryFirstOccurrence(ps);
  }

  /** The grouping and size half of `GroupByCategorySpec`, by induction. */
  lemma {:induction false} GroupByCategoryGroups(ps: seq<Permission>)
    ensures IsGroupingOf(GroupByCategory(ps), ps)
    ensures Sum(GroupSizes(GroupByCategory(ps))) == |ps|
    decreases |ps|
  {
    if |ps| > 0 {
      var init := ps[..|ps| - 1];
      GroupByCategoryGroups(init);
      var gs, p := GroupByCategory(init), ps[|ps| - 1];
      assert init + [p] == ps;
      assert GroupByCategory(ps) == AddToGroups(gs, p);
      AddToGroupsSpec(gs, init, p);
    }
  }

  /** One reduce step adds a category to the end of the group order
      exactly when it has no group yet. */
  lemma AddToGroupsCategories(gs: seq<Group>, p: Permission)
    ensures GroupCategories(AddToGroups(gs, p))
         == if p.category in GroupCategories(gs) then GroupCategories(gs) else GroupCategories(gs) + [p.category]
  {
    match FindGroup(gs, p.category)
    case Some(k) =>
      assert GroupCategories(gs)[k] == p.category;
      assert GroupCategories(AddToGroups(gs, p)) == GroupCategories(gs);
    case None =>
      assert GroupCategories(AddToGroups(gs, p)) == GroupCategories(gs) + [p.category];
  }

  /** The groups come in the order their categories first occur: the group
      categories are the list's categories, deduplicated. */
  lemma {:induction false} GroupByCategoryOrder(ps: seq<Permission>)
    ensures GroupCategories(GroupByCategory(ps)) == Dedup(CategoriesOf(ps))
    decreases |ps|
  {
    if |ps| == 0 {
      assert GroupCategories([]) == [];
    } else {
      var init, last := ps[..|ps| - 1], ps[|ps| - 1];
      GroupByCategoryOrder(init);
      assert init + [last] == ps;
      AddToGroupsCategories(GroupByCategory(init), last);
      CategoriesSnoc(init, last);
    }
  }

  /** A group listed earlier has a permission that comes before every
      permission of a group listed later. */
  lemma GroupByCategoryFirstOccurrence(ps: seq<Permission>)
    ensures var gs := GroupByCategory(ps);
      forall i, j :: 0 <= i < j < |gs| ==> FirstBefore(CategoriesOf(ps), gs[i].category, gs[j].category)
  {
    var gs := GroupByCategory(ps);
    forall i, j | 0 <= i < j < |gs|
      ensures FirstBefore(CategoriesOf(ps), gs[i].category, gs[j].category)
    {
      GroupFirstBefore(ps, i, j);
    }
  }

  /** The pointwise form of `GroupByCategoryFirstOccurrence`. */
  lemma GroupFirstBefore(ps: seq<Permission>, i: nat, j: nat)
    requires i < j < |GroupByCategory(ps)|
    ensures FirstBefore(CategoriesOf(ps), GroupByCategory(ps)[i].category, GroupByCategory(ps)[j].category)
  {
    var gs := GroupByCategory(ps);
    GroupByCategoryOrder(ps);
    assert GroupCategories(gs)[i] == gs[i].category && GroupCategories(gs)[j] == gs[j].category;
    DedupOrder(CategoriesOf(ps), i, j);
  }

  /** Appending one more permission of the last group's category extends
      that group and creates none. */
  lemma {:induction false} FindLastGroup(gs: seq<Group>, g: Group)
    requires g.category !in GroupCategories(gs)
    ensures FindGroup(gs + [g], g.category) == Some(|gs|)
    decreases |gs|
  {
    if |gs| > 0 {
      assert GroupCategories(gs)[0] == gs[0].category;
      assert GroupCategories(gs) == [gs[0].category] + GroupCategories(gs[1..]);
      assert (gs + [g])[1..] == gs[1..] + [g];
      FindLastGroup(gs[1..], g);
    }
  }

  /** The reduce step, seen from the end of the list. */
  lemma GroupByCategorySnoc(a: seq<Permission>, p: Permission)
    ensures GroupByCategory(a + [p]) == AddToGroups(GroupByCategory(a), p)
  {
    assert (a + [p])[..|a + [p]| - 1] == a;
  }

  /** A permission of the last group's category, whose category no earlier
      group has, is pushed onto that last group. */
  lemma PushOntoLastGroup(gs: seq<Group>, g: Group, p: Permission)
    requires g.category !in GroupCategories(gs) && p.category == g.category
    ensures AddToGroups(gs + [g], p) == gs + [Group(g.category, g.permissions + [p])]
  {
    FindLastGroup(gs, g);
    var hs := gs + [g];
    assert hs[|gs| := hs[|gs|].(permissions := g.permissions + [p])]
        == gs + [Group(g.category, g.permissions + [p])];
  }

  /** A run of permissions of one new category, appended to a list, becomes
      one new group at the end. */
  lemma {:induction false} GroupNewBlock(a: seq<Permission>, b: seq<Permission>, c: Category)
    requires |b| > 0
    requires forall i :: 0 <= i < |b| ==> b[i].category == c
    requires c !in GroupCategories(GroupByCategory(a))
    ensures GroupByCategory(a + b) == GroupByCategory(a) + [Group(c, b)]
    decreases |b|
  {
    var ga := GroupByCategory(a);
    var init, last := b[..|b| - 1], b[|b| - 1];
    assert a + b == (a + init) + [last];
    GroupByCategorySnoc(a + init, last);
    if |b| == 1 {
      assert a + init == a;
      assert init + [last] == b;
      assert FindGroup(ga, c).None?;
    } else {
      GroupNewBlock(a, init, c);
      PushOntoLastGroup(ga, Group(c, init), last);
      assert init + [last] == b;
    }
  }

  /** The catalog's groups, block by block. */
  lemma GroupMemberBlock()
    ensures GroupByCategory(MemberPermissions) == [Group(Members, MemberPermissions)]
  {
    assert [] + MemberPermissions == MemberPermissions;
    GroupNewBlock([], MemberPermissions, Members);
  }

  lemma GroupFinancialBlock()
    ensures GroupByCategory(MemberPermissions + FinancialPermissions)
         == [Group(Members, MemberPermissions), Group(Financial, FinancialPermissions)]
  {
    GroupMemberBlock();
    assert GroupCategories([Group(Members, MemberPermissions)]) == [Members];
    GroupNewBlock(MemberPermissions, FinancialPermissions, Financial);
  }

  lemma GroupReportBlock()
    ensures GroupByCategory(MemberPermissions + FinancialPermissions + ReportPermissions)
         == [Group(Members, MemberPermissions), Group(Financial, FinancialPermissions),
             Group(Reports, ReportPermissions)]
  {
    var gs := [Group(Members, MemberPermissions), Group(Financial, FinancialPermissions)];
    GroupFinancialBlock();
    assert GroupCategories(gs) == [Members, Financial];
    GroupNewBlock(MemberPermissions + FinancialPermissions, ReportPermissions, Reports);
  }

  lemma GroupSettingsBlock()
    ensures GroupByCategory(MemberPermissions + FinancialPermissions + ReportPermissions + SettingsPermissions)
         == [Group(Members, MemberPermissions), Group(Financial, FinancialPermissions),
             Group(Reports, ReportPermissions), Group(Settings, SettingsPermissions)]
  {
    var gs := [Group(Members, MemberPermissions), Group(Financial, FinancialPermissions),
               Group(Reports, ReportPermissions)];
    GroupReportBlock();
    assert GroupCategories(gs) == [Members, Financial, Reports];
    GroupNewBlock(MemberPermissions + FinancialPermissions + ReportPermissions, SettingsPermissions, Settings);
  }

  /** Grouping the whole catalog gives its five blocks, in catalog order. */
  lemma CatalogGrouping()
    ensures GroupByCategory(Catalog) == [
      Group(Members, MemberPermissions),
      Group(Financial, FinancialPermissions),
      Group(Reports, ReportPermissions),
      Group(Settings, SettingsPermissions),
      Group(System, SystemPermissions)]
  {
    var gs := [Group(Members, MemberPermissions), Group(Financial, FinancialPermissions),
               Group(Reports, ReportPermissions), Group(Settings, SettingsPermissions)];
    GroupSettingsBlock();
    assert GroupCategories(gs) == [Members, Financial, Reports, Settings];
    GroupNewBlock(MemberPermissions + FinancialPermissions + ReportPermissions + SettingsPermissions,
                  SystemPermissions, System);
  }
}

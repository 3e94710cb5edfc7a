/** The permission and role records and the fixed 15-entry permission catalog. */
module Role {
  import opened Seqs
  import opened Results

  datatype Category = Members | Financial | Reports | Settings | System

  /** The category's name as it appears in permission ids and group headers. */
  function CategoryName(c: Category): string {
    match c
    case Members => "members"
    case Financial => "financial"
    case Reports => "reports"
    case Settings => "settings"
    case System => "system"
  }

  datatype Permission = Permission(id: string, name: string, description: string, category: Category)

  /** A stored role holds resolved permission records. */
  datatype Role = Role(
    id: string,
    name: string,
    description: string,
    permissions: seq<Permission>,
    memberCount: nat,
    isSystemRole: bool,
    createdAt: string,
    updatedAt: string)

  /** What the role editor submits: permission ids only, not records. */
  datatype RoleFormData = RoleFormData(name: string, description: string, permissions: seq<string>)

  const MemberPermissions: seq<Permission> := [
    Permission("members:view", "View Members", "View member profiles and information", Members),
    Permission("members:create", "Add Members", "Register new members", Members),
    Permission("members:edit", "Edit Members", "Update member information", Members),
    Permission("members:delete", "Delete Members", "Remove members from system", Members)
  ]

  const FinancialPermissions: seq<Permission> := [
    Permission("financial:view", "View Financial Data", "Access financial reports and transactions", Financial),
    Permission("financial:create", "Create Transactions", "Record new financial transactions", Financial),
    Permission("financial:approve", "Approve Transactions", "Approve pending transactions", Financial),
    Permission("financial:loans", "Manage Loans", "Process loan applications and disbursements", Financial)
  ]

  const ReportPermissions: seq<Permission> := [
    Permission("reports:view", "View Reports", "Access standard reports", Reports),
    Permission("reports:create", "Create Reports", "Generate custom reports", Reports),
    Permission("reports:export", "Export Reports", "Export reports to various formats", Reports)
  ]

  const SettingsPermissions: seq<Permission> := [
    Permission("settings:view", "View Settings", "Access system settings", Settings),
    Permission("settings:edit", "Edit Settings", "Modify system configuration", Settings)
  ]

  const SystemPermissions: seq<Permission> := [
    Permission("system:admin", "System Administration", "Full system administration access", System),
    Permission("system:backup", "System Backup", "Create and restore system backups", System)
  ]

  /** `AVAILABLE_PERMISSIONS`: the static catalog, grouped by category in this order. */
  const Catalog: seq<Permission> :=
    MemberPermissions + FinancialPermissions + ReportPermissions + SettingsPermissions + SystemPermissions

  /** The catalog's block for one category. */
  function Block(c: Category): seq<Permission> {
    match c
    case Members => MemberPermissions
    case Financial => FinancialPermissions
    case Reports => ReportPermissions
    case Settings => SettingsPermissions
    case System => SystemPermissions
  }

  /** The ids of a permission list, in order. */
  function IdsOf(ps: seq<Permission>): (r: seq<string>)
    ensures |r| == |ps|
    ensures forall i :: 0 <= i < |ps| ==> r[i] == ps[i].id
  {
    seq(|ps|, i requires 0 <= i < |ps| => ps[i].id)
  }

  /** No two permissions of the list share an id. */
  predicate UniqueIds(ps: seq<Permission>) {
    forall i, j :: 0 <= i < j < |ps| ==> ps[i].id != ps[j].id
  }

  /** The permissions of `ps` whose category is `c`, in list order. */
  function InCategory(ps: seq<Permission>, c: Category): seq<Permission>
    decreases |ps|
  {
    if |ps| == 0 then []
    else if ps[0].category == c then [ps[0]] + InCategory(ps[1..], c)
    else InCategory(ps[1..], c)
  }

  /** `InCategory` keeps exactly the permissions of category `c`, every copy
      of them, as a subsequence, and keeps ids unique. */
  lemma InCategoryMembership(ps: seq<Permission>, c: Category)
    ensures forall p :: p in InCategory(ps, c) <==> p in ps && p.category == c
    ensures forall p :: multiset(InCategory(ps, c))[p] == if p.category == c then multiset(ps)[p] else 0
    ensures IsSubsequence(InCategory(ps, c), ps)
    ensures UniqueIds(ps) ==> UniqueIds(InCategory(ps, c))
  {
    InCategorySelects(ps, c);
    InCategoryCounts(ps, c);
  }

  lemma {:induction false} InCategorySelects(ps: seq<Permission>, c: Category)
    ensures forall p :: p in InCategory(ps, c) <==> p in ps && p.category == c
    ensures IsSubsequence(InCategory(ps, c), ps)
    ensures UniqueIds(ps) ==> UniqueIds(InCategory(ps, c))
    decreases |ps|
  {
    if |ps| > 0 {
      InCategorySelects(ps[1..], c);
      assert forall p :: p in ps <==> p == ps[0] || p in ps[1..];
      assert UniqueIds(ps) ==> UniqueIds(ps[1..]) && forall q :: q in ps[1..] ==> q.id != ps[0].id;
    }
  }

  /** `InCategory` keeps every copy of a permission of category `c` and no
      copy of any other. */
  lemma {:induction false} InCategoryCounts(ps: seq<Permission>, c: Category)
    ensures forall p :: multiset(InCategory(ps, c))[p] == if p.category == c then multiset(ps)[p] else 0
    decreases |ps|
  {
    if |ps| > 0 {
      InCategoryCounts(ps[1..], c);
      assert ps == [ps[0]] + ps[1..];
      assert multiset(ps) == multiset{ps[0]} + multiset(ps[1..]);
      if ps[0].category == c {
        assert multiset(InCategory(ps, c)) == multiset{ps[0]} + multiset(InCategory(ps[1..], c));
      }
    }
  }

  /** The category named by an id's text before its ':' separator. */
  function CategoryOfId(id: string): (r: Option<Category>)
  {
    if HasCategoryPrefix(id, Members) then Some(Members)
    else if HasCategoryPrefix(id, Financial) then Some(Financial)
    else if HasCategoryPrefix(id, Reports) then Some(Reports)
    else if HasCategoryPrefix(id, Settings) then Some(Settings)
    else if HasCategoryPrefix(id, System) then Some(System)
    else None
  }

  /** `id` reads `<category name>:<action>` with a non-empty action. */
  predicate HasCategoryPrefix(id: string, c: Category) {
    var prefix := CategoryName(c) + ":";
    |prefix| < |id| && id[..|prefix|] == prefix
  }

  /** The id prefix determines the category: `CategoryOfId` finds exactly
      the category whose name prefixes the id. */
  lemma CategoryOfIdExact(id: string, c: Category)
    ensures CategoryOfId(id) == Some(c) <==> HasCategoryPrefix(id, c)
  {
    if HasCategoryPrefix(id, c) {
      var name := CategoryName(c);
      assert id[0] == name[0] && id[1] == name[1] by {
        assert id[..|name| + 1][0] == id[0] && id[..|name| + 1][1] == id[1];
      }
    }
  }

  /** The catalog has 15 entries and no two share an id. */
  lemma CatalogUniqueIds()
    ensures |Catalog| == 15
    ensures UniqueIds(Catalog)
  {
  }

  /** Every catalog id is its category's name, a colon, then an action. */
  lemma CatalogIdsCarryCategory()
    ensures forall i :: 0 <= i < |Catalog| ==> CategoryOfId(Catalog[i].id) == Some(Catalog[i].category)
  {
    forall i | 0 <= i < |Catalog|
      ensures CategoryOfId(Catalog[i].id) == Some(Catalog[i].category)
    {
      var p := Catalog[i];
      var prefix := CategoryName(p.category) + ":";
      assert p.id[..|prefix|] == prefix;
      CategoryOfIdExact(p.id, p.category);
    }
  }

  /** Selecting a category distributes over concatenation. */
  lemma {:induction false} InCategoryAppend(a: seq<Permission>, b: seq<Permission>, c: Category)
    ensures InCategory(a + b, c) == InCategory(a, c) + InCategory(b, c)
    decreases |a|
  {
    if |a| == 0 {
      assert a + b == b;
    } else {
      assert (a + b)[0] == a[0];
      assert (a + b)[1..] == a[1..] + b;
      InCategoryAppend(a[1..], b, c);
      if a[0].category == c {
        calc {
          InCategory(a + b, c);
          [a[0]] + InCategory(a[1..] + b, c);
          [a[0]] + (InCategory(a[1..], c) + InCategory(b, c));
          ([a[0]] + InCategory(a[1..], c)) + InCategory(b, c);
        }
      }
    }
  }

  /** Filtering a list whose entries all share one category keeps all of it
      or none of it. */
  lemma {:induction false} InCategoryUniform(b: seq<Permission>, k: Category, d: Category)
    requires forall i :: 0 <= i < |b| ==> b[i].category == k
    ensures InCategory(b, d) == if k == d then b else []
    decreases |b|
  {
    if |b| > 0 {
      InCategoryUniform(b[1..], k, d);
      if k == d {
        assert [b[0]] + b[1..] == b;
      }
    }
  }

  /** Each block holds only its own category. */
  lemma BlockOfCategory(k: Category)
    ensures forall i :: 0 <= i < |Block(k)| ==> Block(k)[i].category == k
    ensures |Block(k)| == CategorySize(k)
  {
  }

  /** The part of a block that a category filter keeps. */
  function Kept(k: Category, d: Category): seq<Permission> {
    if k == d then Block(k) else []
  }

  /** Filtering the catalog filters each block separately. */
  lemma CatalogByBlocks(d: Category)
    ensures InCategory(Catalog, d)
         == Kept(Members, d) + Kept(Financial, d) + Kept(Reports, d) + Kept(Settings, d) + Kept(System, d)
  {
    var b0, b1, b2, b3, b4 := MemberPermissions, FinancialPermissions, ReportPermissions, SettingsPermissions, SystemPermissions;
    InCategoryAppend(b0, b1, d);
    InCategoryAppend(b0 + b1, b2, d);
    InCategoryAppend(b0 + b1 + b2, b3, d);
    InCategoryAppend(b0 + b1 + b2 + b3, b4, d);
    BlockOfCategory(Members);
    BlockOfCategory(Financial);
    BlockOfCategory(Reports);
    BlockOfCategory(Settings);
    BlockOfCategory(System);
    InCategoryUniform(b0, Members, d);
    InCategoryUniform(b1, Financial, d);
    InCategoryUniform(b2, Reports, d);
    InCategoryUniform(b3, Settings, d);
    InCategoryUniform(b4, System, d);
  }

  /** Each category's permissions are exactly its block, in catalog order:
      4 members, 4 financial, 3 reports, 2 settings and 2 system, so no
      category is empty. */
  lemma CatalogCategorySizes(d: Category)
    ensures InCategory(Catalog, d) == Block(d)
    ensures |InCategory(Catalog, d)| == CategorySize(d) > 0
  {
    CatalogByBlocks(d);
    BlockOfCategory(d);
    var e: seq<Permission> := [];
    match d
    case Members =>
      assert Kept(Members, d) + e + e + e + e == Block(d);
    case Financial =>
      assert e + Kept(Financial, d) + e + e + e == Block(d);
    case Reports =>
      assert e + e + Kept(Reports, d) + e + e == Block(d);
    case Settings =>
      assert e + e + e + Kept(Settings, d) + e == Block(d);
    case System =>
      assert e + e + e + e + Kept(System, d) == Block(d);
  }

  /** Number of catalog permissions per category. */
  function CategorySize(c: Category): nat {
    match c
    case Members => 4
    case Financial => 4
    case Reports => 3
    case Settings => 2
    case System => 2
  }
}

/** Sidebar navigation state (`useSidebar`): the static menu, the collapse
    flag, the list of open groups and the active-route tests. Icons are
    left out; routing is reduced to the current pathname. */
module Sidebar {
  import opened Seqs
  import opened Results

  datatype SidebarItem = SidebarItem(title: string, href: Option<string>, children: Option<seq<SidebarItem>>)

  function Link(title: string, href: string): SidebarItem {
    SidebarItem(title, Some(href), None)
  }

  function Section(title: string, children: seq<SidebarItem>): SidebarItem {
    SidebarItem(title, None, Some(children))
  }

  const SidebarItems: seq<SidebarItem> := [
    Link("Dashboard", "/dashboard"),
    Section("Members & Roles", [
      Link("Member Management", "/members"),
      Link("Role & Permission Management", "/roles")]),
    Section("Cooperative", [
      Link("Cooperative Profile", "/cooperative"),
      Link("Service Templates", "/templates")]),
    Section("Financial Management", [
      Link("Chart of Accounts", "/accounts"),
      Link("Transactions", "/transactions"),
      Link("Budgets & Allocations", "/budgets"),
      Link("Reports", "/financial-reports")]),
    Section("Reports", [
      Link("Activity Reports", "/activity-reports"),
      Link("Custom Reports", "/custom-reports")]),
    Section("Settings", [
      Link("User Settings", "/user-settings"),
      Link("System Settings", "/system-settings"),
      Link("Notifications", "/notifications")]),
    Link("Help & Support", "/support")
  ]

  datatype SidebarState = SidebarState(isCollapsed: bool, openGroups: seq<string>)

  const InitialState: SidebarState := SidebarState(false, ["Members & Roles", "Financial Management"])

  /** `toggleSidebar`: flip the collapse flag, keep the open groups. */
  function ToggleSidebar(st: SidebarState): (r: SidebarState)
    ensures r.isCollapsed != st.isCollapsed
    ensures r.openGroups == st.openGroups
  {
    st.(isCollapsed := !st.isCollapsed)
  }

  /** `toggleGroup`: close an open group (every copy of its title), open a
      closed one at the end; nothing else changes. */
  function ToggleGroup(st: SidebarState, title: string): (r: SidebarState)
    ensures r.isCollapsed == st.isCollapsed
    ensures title in r.openGroups <==> title !in st.openGroups
    ensures forall g :: g != title ==> (g in r.openGroups <==> g in st.openGroups)
    ensures title !in st.openGroups ==> r.openGroups == st.openGroups + [title]
    ensures title in st.openGroups ==> IsSubsequence(r.openGroups, st.openGroups)
    ensures title in st.openGroups ==> multiset(r.openGroups) == multiset(st.openGroups)[title := 0]
  {
    st.(openGroups := Toggle(st.openGroups, title))
  }

  /** Two toggles of the same group give back the same open groups; starting
      from a closed group, the very same state. Two collapse toggles are none. */
  lemma ToggleTwice(st: SidebarState, title: string)
    ensures Elems(ToggleGroup(ToggleGroup(st, title), title).openGroups) == Elems(st.openGroups)
    ensures title !in st.openGroups ==> ToggleGroup(ToggleGroup(st, title), title) == st
    ensures ToggleSidebar(ToggleSidebar(st)) == st
  {
    ToggleTwiceElems(st.openGroups, title);
    if title !in st.openGroups {
      ToggleTwiceAbsent(st.openGroups, title);
    }
  }

  /** `isActive`: the link's path is the current one. */
  predicate IsActive(pathname: string, path: string) {
    pathname == path
  }

  /** `children?.some(child => child.href && isActive(child.href))`: an empty
      or missing href never counts. */
  predicate AnyChildActive(children: seq<SidebarItem>, pathname: string)
    decreases |children|
  {
    && |children| > 0
    && (|| (children[0].href.Some? && |children[0].href.value| > 0 && IsActive(pathname, children[0].href.value))
        || AnyChildActive(children[1..], pathname))
  }

  predicate IsGroupActive(children: Option<seq<SidebarItem>>, pathname: string) {
    children.Some? && AnyChildActive(children.value, pathname)
  }

  predicate ChildLinksTo(c: SidebarItem, pathname: string) {
    c.href.Some? && |c.href.value| > 0 && c.href.value == pathname
  }

  /** A group is active exactly when one of its children links, with a
      non-empty href, to the current path; a missing child list is never active. */
  lemma {:induction false} GroupActiveSpec(children: seq<SidebarItem>, pathname: string)
    ensures AnyChildActive(children, pathname) <==> exists i :: 0 <= i < |children| && ChildLinksTo(children[i], pathname)
    decreases |children|
  {
    if |children| > 0 {
      GroupActiveSpec(children[1..], pathname);
      if exists i :: 0 <= i < |children| && ChildLinksTo(children[i], pathname) {
        var i :| 0 <= i < |children| && ChildLinksTo(children[i], pathname);
        if i > 0 {
          assert children[1..][i - 1] == children[i];
        }
      }
      if exists i :: 0 <= i < |children[1..]| && ChildLinksTo(children[1..][i], pathname) {
        var i :| 0 <= i < |children[1..]| && ChildLinksTo(children[1..][i], pathname);
        assert children[i + 1] == children[1..][i];
      }
    }
  }

  /** Every entry is a link or a non-empty group of links. */
  predicate WellFormedEntry(item: SidebarItem) {
    || (item.href.Some? && item.children.None?)
    || (&& item.href.None? && item.children.Some? && |item.children.value| > 0
        && forall j :: 0 <= j < |item.children.value| ==>
             item.children.value[j].href.Some? && item.children.value[j].children.None?)
  }

  function Titles(items: seq<SidebarItem>): (ts: seq<string>)
    ensures |ts| == |items|
    ensures forall i :: 0 <= i < |items| ==> ts[i] == items[i].title
  {
    seq(|items|, i requires 0 <= i < |items| => items[i].title)
  }

  /** The titles of the entries that are groups, in menu order. */
  function GroupTitles(items: seq<SidebarItem>): seq<string>
    decreases |items|
  {
    if |items| == 0 then []
    else if items[0].children.Some? then [items[0].title] + GroupTitles(items[1..])
    else GroupTitles(items[1..])
  }

  /** Each menu entry is a link or a non-empty group of links, and the
      top-level titles are distinct. */
  lemma MenuWellFormed()
    ensures forall i :: 0 <= i < |SidebarItems| ==> WellFormedEntry(SidebarItems[i])
    ensures NoDup(Titles(SidebarItems))
  {
    var ts := Titles(SidebarItems);
    assert ts == ["Dashboard", "Members & Roles", "Cooperative", "Financial Management",
                  "Reports", "Settings", "Help & Support"];
  }

  /** The groups open at start are groups of the menu, and the menu starts expanded. */
  lemma InitialGroupsExist()
    ensures GroupTitles(SidebarItems)
         == ["Members & Roles", "Cooperative", "Financial Management", "Reports", "Settings"]
    ensures forall g :: g in InitialState.openGroups ==> g in GroupTitles(SidebarItems)
    ensures !InitialState.isCollapsed
  {
    var gs := GroupTitles(SidebarItems);
    assert GroupTitles(SidebarItems[6..]) == [];
    assert gs == ["Members & Roles", "Cooperative", "Financial Management", "Reports", "Settings"];
    assert gs[0] == InitialState.openGroups[0] && gs[2] == InitialState.openGroups[1];
  }
}

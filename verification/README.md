# Strata cooperative dashboard — a Dafny model of its data core

The dashboard keeps every record in memory. It holds roles built from a fixed
permission catalog, members, a transaction ledger, and the sidebar's
navigation state. Three entry dialogs validate budgets, transactions and
ledger accounts before accepting them. This project restates that core as
pure Dafny functions over immutable datatypes and proves what each operation
promises:

- the 15-entry permission catalog, its categories and id format (`Role`);
- the role store: add, update, the edit guard, guarded delete, duplicate and
  statistics (`RoleStore`);
- the role editor's checkbox and "select all" logic, submit enablement and
  reset (`RoleEditor`);
- grouping permissions by category, shared by the editor and the role viewer
  (`PermissionGroups`, `RoleViewer`);
- the member store: filtered view, add with a padded member number, partial
  update, delete and statistics (`Members`);
- the transaction ledger: newest first, `TXN-nnn` ids, and a per-service view
  (`Transactions`);
- the sidebar: menu, collapse flag, open groups and active-route tests
  (`Sidebar`);
- the budget, transaction and account dialogs as small validators, each
  returning the dialog state and at most one message (`Forms`, `BudgetForm`,
  `TransactionForm`, `AccountForm`).

`Seqs` holds the list-as-set helpers: toggle, remove, dedup, sum and count.
`Text` holds decimal rendering, `padStart`, ASCII lower-casing and substring
search. `Results` holds `Option` and `Result`.

Clocks and id generators become parameters. `Date.now()` ids are a `freshId`
argument, which must not already be in use. Today's ISO date is a `today`
argument. Every `alert` or toast becomes an error value, and the state does
not change.

`updateRole` itself has no system-role check. The only guard on the edit
path is `editRole`, which refuses to open a system role in the editor.
`RoleStore.UpdateRole` therefore rewrites a system role like any other role.
`RoleStore.EditAndSave` models the guarded path, and
`RoleStore.UpdateRoleHasNoSystemGuard` states the difference.

## Model

| member | source | states |
|---|---|---|
| Role.CatalogUniqueIds | src/models/Role.ts:25-50 | The catalog holds 15 permissions and no two share an id. |
| Role.CatalogIdsCarryCategory | src/models/Role.ts:27-49 | Every catalog id is its category's name, a colon and an action, so reading the prefix back gives the entry's category. |
| Role.CategoryOfIdExact | src/models/Role.ts:5 | An id's prefix determines its category: the lookup finds a category exactly when that category's name and a colon begin the id. |
| Role.CatalogCategorySizes | src/models/Role.ts:26-49 | Each category's catalog entries are exactly its block, in catalog order: 4 members, 4 financial, 3 reports, 2 settings, 2 system, so none is empty. |
| Role.InCategoryMembership | src/models/Role.ts:1-6 | Filtering by category keeps exactly the permissions of that category, every copy of each, as a subsequence, and keeps ids distinct. |
| Role.InCategoryAppend | src/models/Role.ts:25-50 | Filtering by category distributes over list concatenation. |
| Role.IdsOf | src/models/Role.ts:19-23 | The id list a form carries has one id per permission, position by position. |
| RoleStore.SelectByIdsMembership | src/controllers/hooks/useRoles.ts:63-65 | Filtering a permission list by an id list keeps exactly the entries whose id is listed, every copy of each, in order, without new duplicates. |
| RoleStore.ResolveSpec | src/controllers/hooks/useRoles.ts:63-65 | Resolving a form's ids against the catalog keeps catalog order, repeats no permission, keeps every known id and silently drops unknown ones. |
| RoleStore.FindIndex | src/controllers/hooks/useRoles.ts:105 | `find` returns the first role with the id, and nothing exactly when no role has it. |
| RoleStore.AddRole | src/controllers/hooks/useRoles.ts:62-80 | Exactly one role is appended, after the unchanged old list: the form's name and description, resolved permissions, no members, custom, created and updated today. |
| RoleStore.UpdateRole | src/controllers/hooks/useRoles.ts:82-102 | Roles with the id get the form's name, description and resolved permissions and today's updatedAt; their id, member count, system flag and creation date stay; other roles are untouched; an unknown id changes nothing. |
| RoleStore.EditRole | src/controllers/hooks/useRoles.ts:134-141 | A system role is refused with the not-editable error; any other role is opened unchanged. |
| RoleStore.EditAndSave | src/controllers/hooks/useRoles.ts:134-141 | Opening and saving through the editor fails for a system role. For any other role it saves the form through `updateRole` under that role's id. |
| RoleStore.UpdateRoleHasNoSystemGuard | src/controllers/hooks/useRoles.ts:82-102 | Calling `updateRole` directly renames a system role and keeps it a system role; only the editor path refuses it. |
| RoleStore.RemoveRole | src/controllers/hooks/useRoles.ts:114 | The filter keeps exactly the roles with another id, every copy of each, in order, and returns the list itself when no role has the id. |
| RoleStore.RemoveRoleUnique | src/controllers/hooks/useRoles.ts:114 | Removing roles keeps the remaining ids distinct. |
| RoleStore.DeleteRole | src/controllers/hooks/useRoles.ts:104-115 | A system role is refused first, even with members; otherwise a role with members is refused; otherwise the delete succeeds, exactly then, removing every role with the id and keeping every copy of the others in order, so an unknown id succeeds and removes no role. |
| RoleStore.AddThenDeleteRole | src/controllers/hooks/useRoles.ts:104-115 | A role just added is custom and has no members, so deleting it succeeds and gives back the list from before the add. |
| RoleStore.RemoveRoleAppend | src/controllers/hooks/useRoles.ts:114 | Removing by id distributes over list concatenation. |
| RoleStore.SeedDeleteScenarios | src/controllers/hooks/useRoles.ts:5-54 | On the seed roles, deleting Administrator or Member is refused as a system role, and deleting Treasurer is refused for its member. Deleting an unknown id succeeds and leaves the seeds as they are. |
| RoleStore.DuplicateRole | src/controllers/hooks/useRoles.ts:117-132 | An unknown id changes nothing; otherwise one role is appended after the unchanged list. |
| RoleStore.DuplicateRoleCopy | src/controllers/hooks/useRoles.ts:117-132 | The appended copy is named with " (Copy)" and has the source's description and permissions, no members, the custom flag, today's dates and the fresh id. |
| RoleStore.RoundHalfUp | src/controllers/hooks/useRoles.ts:147-149 | `Math.round` of a non-negative ratio is the integer r with 2nr ≤ 2s + n < 2n(r + 1), the nearest integer with halves rounded up. |
| RoleStore.GetRoleStats | src/controllers/hooks/useRoles.ts:143-157 | The total is the length; the custom count is the number of roles that are not system roles, so it never exceeds the total and equals it exactly when no role is a system role; the member total is the sum of member counts; the average is the sum of permission counts over the length, rounded half up. |
| RoleStore.SeedPermissionsAreFilters | src/controllers/hooks/useRoles.ts:5-54 | The Administrator holds the whole catalog. The Treasurer, Secretary and Member hold exactly the catalog filtered by their seed conditions, in catalog order. |
| RoleStore.SeedRoleStats | src/controllers/hooks/useRoles.ts:5-54 | The seed roles hold 15, 8, 5 and 2 permissions, and their statistics are 4 roles, 2 custom, 19 members and average 8, from 30/4 = 7.5. |
| RoleStore.AddRolePreservesInvariant | src/controllers/hooks/useRoles.ts:62-80 | With a fresh id, adding keeps role ids distinct and every permission list a catalog selection. |
| RoleStore.UpdateRolePreservesInvariant | src/controllers/hooks/useRoles.ts:82-102 | Updating keeps role ids distinct and every permission list a catalog selection. |
| RoleStore.DeleteRolePreservesInvariant | src/controllers/hooks/useRoles.ts:104-115 | A delete that goes through keeps role ids distinct and every permission list a catalog selection. |
| RoleStore.DuplicateRolePreservesInvariant | src/controllers/hooks/useRoles.ts:117-132 | With a fresh id, duplicating keeps role ids distinct and every permission list a catalog selection. |
| RoleStore.AddRoleStats | src/controllers/hooks/useRoles.ts:62-80 | Adding a role counts one more role and one more custom role, and no more members. |
| RoleStore.RemoveEmptyRolesKeepsMembers | src/controllers/hooks/useRoles.ts:114 | Removing only roles without members leaves the member total unchanged. |
| RoleStore.DeleteKeepsTotalMembers | src/controllers/hooks/useRoles.ts:104-115 | With distinct ids, a delete that goes through never lowers the member total: the member check protects every role that has members. |
| RoleStore.UpdateRoleKeepsCounts | src/controllers/hooks/useRoles.ts:82-102 | Updating never changes the role count, the custom count or the member total. |
| RoleStore.SelectionUniqueIds | src/models/Role.ts:25-50 | A subsequence of a list with distinct ids has distinct ids. |
| RoleStore.SeedRolesInvariant | src/controllers/hooks/useRoles.ts:5-54 | The seed roles have distinct ids and each holds a catalog selection. |
| Seqs.Toggle | src/views/components/Roles/AddRoleModal.tsx:37-44 | Toggling selects an absent element by appending it, or removes every copy of a present one while keeping every copy of every other element, in order. No other element's membership changes, and a list without duplicates stays without duplicates. |
| Seqs.ToggleTwiceElems | src/views/components/Roles/AddRoleModal.tsx:37-44 | Toggling the same element twice restores the set of elements; only the order may differ. |
| Seqs.ToggleTwiceAbsent | src/views/components/Roles/AddRoleModal.tsx:37-44 | Toggling an absent element twice restores the exact list. |
| Seqs.RemoveAll | src/views/components/Roles/AddRoleModal.tsx:41 | Removing an element drops every copy of it and keeps every copy of every other element, in order; the list gets shorter exactly when the element was there. |
| Seqs.RemoveAllOf | src/views/components/Roles/AddRoleModal.tsx:56 | Removing a list of elements keeps exactly the elements not in it, every copy of each, in order, without adding duplicates. |
| Seqs.Dedup | src/views/components/Roles/AddRoleModal.tsx:61 | Building a set from a list and spreading it back keeps every element exactly once, and returns a duplicate-free list unchanged. |
| Seqs.DedupOrder | src/views/components/Roles/AddRoleModal.tsx:61 | The set keeps insertion order: an element listed before another in the result first occurs in the input before any copy of the other. |
| Seqs.DedupAppend | src/views/components/Roles/AddRoleModal.tsx:60-61 | When the first list has no duplicates, deduplicating the concatenation gives the first list followed by the second list's new elements, deduplicated, in their order. |
| Seqs.DedupKeepsPrefix | src/views/components/Roles/AddRoleModal.tsx:61 | When the first list has no duplicates, deduplicating the concatenation keeps it as a prefix, so new elements only come after it. |
| Seqs.NoDupCardinality | src/views/components/Roles/AddRoleModal.tsx:124 | A list without duplicates is as long as its set of elements. |
| Seqs.CountTrue | src/views/components/Roles/AddRoleModal.tsx:131-132 | The count of true entries never exceeds the length; it equals the length exactly when all are true, and is zero exactly when none is. |
| Seqs.CountTrueIndices | src/views/components/Roles/AddRoleModal.tsx:131-132 | The count of true entries is the number of positions holding true. |
| Seqs.SumAppend | src/controllers/hooks/useRoles.ts:146 | The sum of a concatenation is the sum of the sums. |
| Seqs.SumUpdate | src/views/components/Roles/AddRoleModal.tsx:70 | Growing one entry grows the sum by the same amount. |
| PermissionGroups.FindGroup | src/views/components/Roles/AddRoleModal.tsx:67 | The lookup finds a group of the category when there is one, and nothing only when no group has that category. |
| PermissionGroups.GroupByCategorySpec | src/views/components/Roles/AddRoleModal.tsx:66-72 | The reduce yields one non-empty group per occurring category. Each group holds exactly that category's permissions in list order, the group sizes sum to the list's length, and the groups come in the order their categories first occur. |
| PermissionGroups.GroupByCategoryOrder | src/views/components/Roles/AddRoleModal.tsx:66-72 | The group categories are the list's categories with repeats dropped, in first-occurrence order. |
| PermissionGroups.AddToGroupsSpec | src/views/components/Roles/AddRoleModal.tsx:67-70 | One reduce step turns a grouping of a list into a grouping of the list with one more permission. |
| PermissionGroups.AddToExistingGroup | src/views/components/Roles/AddRoleModal.tsx:70 | When the category's group exists, the permission is pushed onto it and nothing else changes. |
| PermissionGroups.AddToNewGroup | src/views/components/Roles/AddRoleModal.tsx:67-70 | When the category has no group, a one-element group is created after the existing ones. |
| PermissionGroups.GroupNewBlock | src/views/components/Roles/AddRoleModal.tsx:66-72 | A run of permissions of one new category becomes one new last group. |
| PermissionGroups.CatalogGrouping | src/views/components/Roles/AddRoleModal.tsx:66-72 | Grouping the catalog yields its five category blocks in catalog order. |
| RoleEditor.TogglePermission | src/views/components/Roles/AddRoleModal.tsx:37-44 | A checkbox click flips that id's selection. It appends an unselected id. For a selected id it removes every copy and keeps every copy of every other id, in order. It leaves the name and description alone and adds no duplicate. |
| RoleEditor.TogglePermissionTwice | src/views/components/Roles/AddRoleModal.tsx:37-44 | Two clicks on one checkbox restore the selected set. The form is restored exactly when the id started unselected. |
| RoleEditor.ToggleAllInCategory | src/views/components/Roles/AddRoleModal.tsx:46-64 | With the whole category selected, "Deselect All" removes exactly the category's ids and keeps every copy of the others in order. Otherwise "Select All" keeps the prior selection and appends behind it exactly the category's missing ids, in category order, with no id repeated. |
| RoleEditor.ToggleAllFlips | src/views/components/Roles/AddRoleModal.tsx:51-63 | On a non-empty category the button flips the state: afterwards the category is entirely selected exactly when it was not before. |
| RoleEditor.ToggleAllTwice | src/views/components/Roles/AddRoleModal.tsx:46-64 | Two presses restore the selected set when the category started entirely selected or entirely unselected. From a partial selection they end with none of the category's ids. |
| RoleEditor.SelectedCount | src/views/components/Roles/AddRoleModal.tsx:130-132 | The per-category count is the number of the category's ids that are selected. It never exceeds the category size, equals it exactly when the `every` test of the button holds, and is zero exactly when no id is selected. |
| RoleEditor.CategoryIdsOffered | src/views/components/Roles/AddRoleModal.tsx:47-49 | A category's ids are offered ids. |
| RoleEditor.ClicksPreserveSelection | src/views/components/Roles/AddRoleModal.tsx:37-64 | Clicks keep a selection of distinct offered ids, so a submitted form repeats no id. |
| RoleEditor.Submit | src/views/components/Roles/AddRoleModal.tsx:26-30 | Submitting needs a name, a description and at least one permission. A submit sends the form unchanged and resets to the empty form. |
| RoleEditor.Close | src/views/components/Roles/AddRoleModal.tsx:32-35 | Closing clears the name, the description and the selection, and the cleared form cannot be submitted. |
| RoleEditor.SubmittedRoleHasSelectedCount | src/views/components/Roles/AddRoleModal.tsx:124 | A submitted selection of distinct catalog ids becomes a role with exactly as many permissions as the "n selected" badge showed. |
| RoleViewer.ViewRole | src/views/components/Roles/ViewRoleModal.tsx:12-81 | No role renders nothing. Otherwise the view shows the role's name, description, member count and permission total, and the "System Role" badge exactly for system roles. Every permission sits in the distinct, non-empty group of its category, in role order, labelled with its count. |
| RoleViewer.ViewGroupOrder | src/views/components/Roles/ViewRoleModal.tsx:12-81 | The groups are shown in the order their categories first occur in the role. |
| RoleViewer.ViewTotalsAgree | src/views/components/Roles/ViewRoleModal.tsx:15-21 | The group sizes add up to the displayed total. |
| RoleViewer.CountLabelReadsBack | src/views/components/Roles/ViewRoleModal.tsx:81 | The group label starts with the count, which reads back as the number, and ends in "s" exactly when the count is not 1. |
| RoleViewer.ViewGroups | src/views/components/Roles/ViewRoleModal.tsx:74-81 | Each displayed group keeps its grouping's category and permissions. |
| RoleViewer.ViewSeedAdministrator | src/views/components/Roles/ViewRoleModal.tsx:15-21 | The seeded Administrator shows as a system role with 15 permissions, in five groups in catalog order of sizes 4, 4, 3, 2 and 2. |
| Text.ParseDecimalInverse | src/controllers/hooks/useMembers.ts:80 | Reading back a rendered number gives the number. |
| Text.PadStart | src/controllers/hooks/useMembers.ts:80 | Padding reaches the width, keeps the text as a suffix and fills only on the left. |
| Text.ZeroPad3Inverse | src/controllers/hooks/useMembers.ts:80 | A zero-padded counter still reads back as the number. |
| Text.ZeroPad3Injective | src/contexts/TransactionContext.tsx:95 | Different counters give different padded strings, and equal ones equal strings. |
| Text.LowerIdempotent | src/controllers/hooks/useMembers.ts:67-71 | Lower-casing twice is lower-casing once. |
| Text.LowerKeepsIncludes | src/controllers/hooks/useMembers.ts:67-71 | A substring stays a substring after both sides are lower-cased. |
| Text.IncludesWitness | src/controllers/hooks/useMembers.ts:68 | A substring match has a position where the needle occurs. |
| Members.FilterMembersSpec | src/controllers/hooks/useMembers.ts:63-75 | The view holds exactly the members matching status, type and search, every copy of each, as a subsequence of the list. |
| Members.InitialFiltersShowAll | src/controllers/hooks/useMembers.ts:55-59 | With the initial filters (all, all, empty search) the view is the whole list. |
| Members.SearchIgnoresCase | src/controllers/hooks/useMembers.ts:67-71 | Searching with the lower-cased text finds the same members as searching with the original text. |
| Members.MemberNumberFound | src/controllers/hooks/useMembers.ts:71 | Typing any part of a member's number finds that member. |
| Members.MemberNumberInjective | src/controllers/hooks/useMembers.ts:80 | Two member numbers are equal exactly when the counts they were made from are equal. |
| Members.AddMember | src/controllers/hooks/useMembers.ts:77-89 | One member is appended after the unchanged list. It copies the form's fields and gets number "M-" followed by the length plus one padded to three digits, status active, loan 0 and savings equal to the contribution. |
| Members.UpdateMember | src/controllers/hooks/useMembers.ts:91-98 | Members with the id take each supplied field and keep the others, so the empty patch leaves them as they were; all other members are unchanged, and an unknown id changes nothing. |
| Members.UpdateMemberIdempotent | src/controllers/hooks/useMembers.ts:91-98 | Sending the same patch again changes nothing more when it keeps the id, and the empty patch changes nothing. |
| Members.DeleteMemberSpec | src/controllers/hooks/useMembers.ts:100-102 | Delete keeps exactly the members with another id, every copy of each, in order; an unknown id changes nothing. |
| Members.GetMemberStats | src/controllers/hooks/useMembers.ts:104-116 | Statistics are taken over the whole list: the total is its length; the active count is the number of active members, never exceeds the total and equals it exactly when everyone is active; the contribution and savings totals are the sums of those fields. |
| Members.AddMemberStats | src/controllers/hooks/useMembers.ts:77-89 | Adding a member counts one more member and one more active member, and adds the contribution to both the contribution and savings totals. |
| Members.SeedMemberStats | src/controllers/hooks/useMembers.ts:5-51 | The seed members give 3 members, 2 active, contributions 18000 and savings 58000. |
| Members.AddAfterDeleteRepeatsNumber | src/controllers/hooks/useMembers.ts:80 | The number comes from the length. So after deleting the first seed member, the next member is numbered M-003, like the member already holding it. |
| Transactions.AddTransaction | src/contexts/TransactionContext.tsx:92-98 | The new entry goes in front of the unchanged old entries. It gets id "TXN-" plus the padded length plus one, and copies every other field. |
| Transactions.TxnIdInjective | src/contexts/TransactionContext.tsx:95 | Two transaction ids are equal exactly when their numbers are. |
| Transactions.AddTransactionKeepsNumbering | src/contexts/TransactionContext.tsx:92-98 | If the ids are exactly TXN-001 to TXN-n, each once, then after an add they are exactly TXN-001 to TXN-(n+1), each once. |
| Transactions.NextIdUnused | src/contexts/TransactionContext.tsx:95 | In a numbered ledger the next number is not in use. |
| Transactions.ServiceTransactionsSpec | src/contexts/TransactionContext.tsx:100-102 | The service view holds exactly the entries with that service id, every copy of each, as a subsequence; entries without a service id never appear. |
| Transactions.AddTransactionServiceView | src/contexts/TransactionContext.tsx:92-102 | A new entry appears at the front of its own service's view and of no other. |
| Transactions.AscendingIdsNumbered | src/contexts/TransactionContext.tsx:25-87 | A ledger whose i-th entry is numbered i + 1 is numbered. |
| Transactions.InitialTransactionsNumbered | src/contexts/TransactionContext.tsx:25-87 | The seed ledger is numbered TXN-001 to TXN-006. |
| Transactions.InitialServiceViews | src/contexts/TransactionContext.tsx:63-86 | In the seed ledger service "1" has only TXN-005 and service "2" only TXN-006. |
| Sidebar.ToggleSidebar | src/controllers/hooks/useSidebar.ts:87-89 | The collapse flag flips and the open groups stay. |
| Sidebar.ToggleGroup | src/controllers/hooks/useSidebar.ts:91-97 | An open group closes, keeping every copy of every other open group in order; a closed one opens at the end. Every other group keeps its state, and so does the collapse flag. |
| Sidebar.ToggleTwice | src/controllers/hooks/useSidebar.ts:87-97 | Two toggles of a group restore the open set, and the exact state when the group started closed. Two collapse toggles cancel out. |
| Sidebar.GroupActiveSpec | src/controllers/hooks/useSidebar.ts:99-103 | A group is active exactly when some child has a non-empty href equal to the current path. |
| Sidebar.MenuWellFormed | src/controllers/hooks/useSidebar.ts:25-79 | Every entry is a link or a non-empty group of links, and the top-level titles are distinct. |
| Sidebar.InitialGroupsExist | src/controllers/hooks/useSidebar.ts:84-85 | The menu starts expanded, and the two groups open at start are among its five groups. |
| Forms.LexLessStrict | src/views/components/Budgets/AddBudgetModal.tsx:71 | String order is strict: no date comes before itself, and of two dates at most one comes first. |
| Forms.LexLessTotal | src/views/components/Budgets/AddBudgetModal.tsx:71 | Of two different strings one comes first. |
| BudgetForm.SubmitBudget | src/views/components/Budgets/AddBudgetModal.tsx:48-97 | The missing-fields error comes exactly when category, amount or period is empty. The amount error comes exactly when those are filled and the amount is at most zero. The date error comes exactly when those pass and both dates are filled but not in order. A rejection leaves the dialog as it was. Acceptance means the budget is valid, and it resets the form, with threshold "80", and closes the dialog. |
| BudgetForm.BudgetDateChecks | src/views/components/Budgets/AddBudgetModal.tsx:71-78 | A budget ending on its start day, or before it, is refused. A missing date skips the check. |
| BudgetForm.NoDoubleSubmit | src/views/components/Budgets/AddBudgetModal.tsx:87-96 | After a success the reset form is refused for missing fields. |
| TransactionForm.SubmitTx | src/views/components/Transactions/AddTransactionModal.tsx:42-81 | The missing-fields error comes exactly when description, account, type or amount is empty. The amount error comes exactly when those are filled and the amount is at most zero. A rejection leaves the dialog as it was. Acceptance resets the form to today's date with everything else empty and closes the dialog. |
| TransactionForm.OptionalFieldsIgnored | src/views/components/Transactions/AddTransactionModal.tsx:46 | Reference and notes never change the outcome of a submit. |
| TransactionForm.NoDoubleSubmit | src/views/components/Transactions/AddTransactionModal.tsx:71-80 | After a success the reset form is refused for missing fields. |
| AccountForm.OfferedCategories | src/views/components/ChartOfAccounts/AddAccountModal.tsx:127-137 | The select offers nothing while no type is chosen, and otherwise exactly the type's category list. |
| AccountForm.CategoryListsPartition | src/views/components/ChartOfAccounts/AddAccountModal.tsx:25-39 | Exactly the five account types have category lists. Each list is non-empty, and no category belongs to two types. |
| AccountForm.SetField | src/views/components/ChartOfAccounts/AddAccountModal.tsx:65-72 | Setting the type stores it and clears the category. Setting code, name, category or opening balance stores the value in that field and changes nothing else. |
| AccountForm.SetFieldKeepsConsistent | src/views/components/ChartOfAccounts/AddAccountModal.tsx:65-72 | When categories are only picked from the offered options, every edit keeps the category empty or one of the current type's categories. |
| AccountForm.SubmitAccount | src/views/components/ChartOfAccounts/AddAccountModal.tsx:41-63 | The error comes exactly when code, name, type or category is empty. A rejection leaves the dialog as it was, and acceptance resets every field and closes the dialog. |
| AccountForm.OpeningBalanceOptional | src/views/components/ChartOfAccounts/AddAccountModal.tsx:45 | The opening balance never changes the outcome of a submit. |
| AccountForm.AcceptedAccountIsClassified | src/views/components/ChartOfAccounts/AddAccountModal.tsx:41-63 | A consistent form that is accepted names one of the five types and one of that type's categories. |

## Left out

- Rendering, icons, colours, dialogs' open flags owned by parents, router wiring, `handleLogout` navigation and the context provider's outside-provider error: these are React plumbing with no data logic.
- `Date.now()` ids and `new Date()` dates: passed in as `freshId` and `today`, with a precondition that the fresh id is not in use.
- `alert`, `confirm` and toasts: modelled as error values with the state unchanged; their wording is not modelled.
- Floating point: `parseFloat`, `NaN`, `toLocaleString` and currency formatting are not modelled. Amounts in the dialogs are `Blank` or an already-parsed integer, and member amounts are integers. Transaction amounts are kept as the formatted text the ledger stores.
- Lower-casing covers the ASCII letters A to Z only, and has no Unicode case mapping.
- RoleStore.GetRoleStats: requires at least one role, because the source divides by zero on an empty list and yields NaN.
- Members.IdInUse: `addMember` is modelled with a fresh id. `Date.now()` can repeat within one millisecond, and that case is not modelled.
- Members.UpdateMember: a patch field that is explicitly `undefined` is treated as absent, so the stored value stays. The source's spread would copy `undefined` over it. No caller on the page passes such a patch.
- Members.Filters: every filter field is always set. The optional `status`, `membershipType` and `search` fields are never left undefined by the page, so the undefined case is not modelled.
- The role editor's name and description inputs rely on the browser's `required` check. `RoleEditor.CanSubmit` states that check together with the disabled submit button.
- The ordering `updatedAt >= createdAt` of role dates is not modelled, because dates are opaque parameters.
- Category colours, the active-member percentage, budget progress and the receipt dialog are float or foreign-library code and are not modelled.
- The duplicate sidebar in `CooperativeSidebar.tsx`, which is not mounted, is not modelled. Neither is the roles page's button enablement, which mirrors `editRole` and `deleteRole`.
- The service and template dialogs, which only check that two or three fields are present, are not modelled, and neither is the edit-role dialog, which is not shown.

# AddUserRole role-assignment widget, modelled in Dafny

The admin portal's `AddUserRole` component lets an administrator search a
catalogue of roles, click roles to assign them, delete assigned ones and
submit the choice. Apart from its markup, the component is a small state
machine over four pieces of state:

- `userRoles`: the display names assigned so far.
- `roleIds`: the ids assigned so far; it is meant to run parallel to `userRoles`.
- `roleList`: the catalogue entries currently listed; it starts as `initialValues`.
- `duplicationError`: an optional message shown after a rejected add.

Four handlers change that state:

- `addRole` appends both keys unless either is already assigned. Otherwise it sets the message.
- `handleRemoveRoleItem` splices the names at the position `indexOf` reports.
- `handleSearchFieldChange` resets or filters the listed catalogue.
- The form's submit callback hands `{roles, roleIds}` to the host.

The project has four modules:

- `RoleText` (`text.dfy`): the search test. The source builds an escaped, case-insensitive regular expression from the query. Here that is an ASCII lower-casing and a literal substring search, `ContainsCI`, proved equal to a reference definition, `OccursCI`.
- `RoleSelection` (`selection.dfy`): the assigned-role state as a value, `Selection`. `addRole`, `handleRemoveRoleItem` and the submit payload are functions from the old selection to the new one. This module holds the duplicate guard, the widget's invariant and the quirks of removal.
- `RoleSearch` (`search.dfy`): the filter, the search transition and a subsequence relation. It proves that searches filter the list currently shown and can only narrow it.
- `AddUserRoleWidget` (`widget.dfy`): the component as a class `AddUserRoleState` with the four fields plus the `initialValues` prop, taken as fixed while the component is mounted.
  - Each handler is a method whose new state is stated through the value-level transitions above.
  - `indexOf` and the search filter are `while` loops proved against their specifications.
  - The class invariant `Valid` keeps the selection well formed and the list shown a subsequence of `initialValues`.
  - Three client methods, `AssignTwoRoles`, `AddAdminTwice` and `AddTwiceThenReAdd`, replay concrete click sequences.

Three behaviours of the code are worth knowing. The model follows the code in each:

- Removing a name that is not assigned is not a no-op. `indexOf` returns -1, and `splice(-1, 1)` drops the last assigned name.
- Removing a name never prunes `roleIds`. The removed role stays blocked, and the submitted ids outnumber the names.
- A non-empty search filters the list currently shown, not the `initialValues` catalogue. Searches narrow progressively, and a query that matches nothing in the narrowed list leaves it as it is. Only an empty query brings the catalogue back.

A reader might expect removing an absent name to be a no-op and search to recompute over the full catalogue; the code does neither, and the model follows the code.

## Model

| member | source | states |
|---|---|---|
| `RoleText.Lower` | apps/admin-portal/src/components/users/add-user-role.tsx:72 | the case folding behind the `i` flag maps each ASCII capital to its own lower-case letter (code point + 32), never yields a capital, and leaves every other character alone |
| `RoleText.LowerEqIff` | apps/admin-portal/src/components/users/add-user-role.tsx:72 | two characters fold alike exactly when they are equal or one is the ASCII capital of the other: case, and only case, is ignored |
| `RoleText.ContainsCI` | apps/admin-portal/src/components/users/add-user-role.tsx:72-75 | the escaped case-insensitive test of a display name succeeds exactly when the query occurs, ignoring case, at some position of the name (both directions, against the reference `OccursCI`); `RoleSearch.Matches` applies this test to a role's display name, as `re.test(role.displayName)` at line 75 does |
| `RoleText.ContainsCIIgnoresCase` | apps/admin-portal/src/components/users/add-user-role.tsx:72 | changing the case of letters in the query or in the name never changes whether a role matches |
| `RoleText.MetacharactersAreLiteral` | apps/admin-portal/src/components/users/add-user-role.tsx:72 | because the query is escaped, "a.b*" matches a name containing "a.b*" literally and does not match "axbb", which the unescaped pattern would match |
| `RoleSelection.DuplicateMessage` | apps/admin-portal/src/components/users/add-user-role.tsx:63 | the rejection message is "You have already added the role: " followed by the role's display name, so it ends with that name |
| `RoleSelection.IsDuplicate` | apps/admin-portal/src/components/users/add-user-role.tsx:58 | the two-key guard; on a well-formed selection it rejects exactly the adds whose appended lists would no longer be duplicate-free (both directions) |
| `RoleSelection.AddRole` | apps/admin-portal/src/components/users/add-user-role.tsx:57-65 | after any add the role is blocked for a later add; the message is cleared exactly when neither the id nor the display name was already assigned |
| `RoleSelection.AddAccepted` | apps/admin-portal/src/components/users/add-user-role.tsx:58-61 | a role new under both keys has its name and id appended to the two lists, and the message is cleared |
| `RoleSelection.AddRejected` | apps/admin-portal/src/components/users/add-user-role.tsx:58-63 | a role taken under either key leaves both lists unchanged and sets the message "You have already added the role: " followed by its display name |
| `RoleSelection.AddRejectsNameCollision` | apps/admin-portal/src/components/users/add-user-role.tsx:58-63 | the display-name guard alone rejects a role whose id is new |
| `RoleSelection.AddRejectsIdCollision` | apps/admin-portal/src/components/users/add-user-role.tsx:58-63 | the id guard alone rejects a role whose display name is new |
| `RoleSelection.AddPreservesConsistent` | apps/admin-portal/src/components/users/add-user-role.tsx:57-65 | an add keeps both lists duplicate-free and of equal length |
| `RoleSelection.AddPreservesWellFormed` | apps/admin-portal/src/components/users/add-user-role.tsx:57-65 | an add keeps the widget invariant: both lists duplicate-free, never more names than ids |
| `RoleSelection.AddAllPreservesConsistent` | apps/admin-portal/src/components/users/add-user-role.tsx:57-65 | any sequence of adds from a consistent selection, in particular from the mounted empty one, keeps both lists duplicate-free and of equal length |
| `RoleSelection.AddAllPaired` | apps/admin-portal/src/components/users/add-user-role.tsx:57-65 | adds keep the lists paired: at every position the id and the name belong to one clicked role, because an accepted click appends both keys at once |
| `RoleSelection.AddAllKeepsAndRepresents` | apps/admin-portal/src/components/users/add-user-role.tsx:57-65 | adds never drop an assigned name or id, and every clicked role is blocked afterwards |
| `RoleSelection.AddTwice` | apps/admin-portal/src/components/users/add-user-role.tsx:57-65 | from any well-formed selection, including those reached after removals, adding the same role a second time changes only the message, which names the role; a role new to the selection then appears exactly once in each list |
| `RoleSelection.IndexOf` | apps/admin-portal/src/components/users/add-user-role.tsx:53 | `indexOf` gives -1 exactly when the name is absent, and otherwise the first position holding it |
| `RoleSelection.SpliceOne` | apps/admin-portal/src/components/users/add-user-role.tsx:53 | `splice(start, 1)` deletes exactly the element at `start` when `0 <= start < length`, the element at `length + start` for `-length <= start < 0` (so -1 deletes the last), the first element for a start below `-length`, and nothing for a start at or past the end or on an empty list |
| `RoleSelection.RemoveRoleItem` | apps/admin-portal/src/components/users/add-user-role.tsx:51-55 | removal never touches the ids or the message, and only ever deletes names |
| `RoleSelection.RemovePresent` | apps/admin-portal/src/components/users/add-user-role.tsx:51-55 | removing an assigned name deletes exactly its first occurrence, keeps all other names in order and leaves the ids unchanged |
| `RoleSelection.RemoveAbsent` | apps/admin-portal/src/components/users/add-user-role.tsx:52-53 | removing a name that is not assigned drops the last name of a non-empty list (splice(-1, 1)) and changes nothing on an empty one |
| `RoleSelection.RemoveDropsName` | apps/admin-portal/src/components/users/add-user-role.tsx:51-55 | in a duplicate-free list the removed name is gone entirely and the list is one shorter |
| `RoleSelection.RemovePreservesWellFormed` | apps/admin-portal/src/components/users/add-user-role.tsx:51-55 | removal keeps both lists duplicate-free and never leaves more names than ids |
| `RoleSelection.RemoveDesynchronises` | apps/admin-portal/src/components/users/add-user-role.tsx:51-55 | removing an assigned name from a selection whose lists have equal length leaves one id more than names, so the lists stop being parallel |
| `RoleSelection.RemovedRoleStaysBlocked` | apps/admin-portal/src/components/users/add-user-role.tsx:51-65 | a role added, then removed by its display name, is rejected when added again, because its id is still held |
| `RoleSelection.Submit` | apps/admin-portal/src/components/users/add-user-role.tsx:88-90 | the payload carries the assigned names and ids exactly as they stand |
| `RoleSelection.SubmitAfterAddsIsParallel` | apps/admin-portal/src/components/users/add-user-role.tsx:57-65 | after any sequence of adds from mount, the payload's names and ids are duplicate-free and of equal length, and position i of both holds the id and the name of one clicked role |
| `RoleSearch.Filter` | apps/admin-portal/src/components/users/add-user-role.tsx:74-79 | the filter loop's result is never longer than the list shown and holds only matching roles; `FilterCounts` and `FilterIsSubsequence` pin it down exactly |
| `RoleSearch.SearchResult` | apps/admin-portal/src/components/users/add-user-role.tsx:67-84 | an empty query yields the `initialValues` prop; a non-empty one never lengthens the list shown, and when it changes the list the result is non-empty and holds only matching roles |
| `RoleSearch.FilterCounts` | apps/admin-portal/src/components/users/add-user-role.tsx:74-79 | the filtered list holds each matching role as often as the list it came from, and no other role |
| `RoleSearch.FilterMembers` | apps/admin-portal/src/components/users/add-user-role.tsx:74-79 | a role is in the filtered list exactly when it is in the list shown and its name matches the query |
| `RoleSearch.FilterIsSubsequence` | apps/admin-portal/src/components/users/add-user-role.tsx:74-79 | the filtered list keeps the relative order of the list it came from (it is a subsequence of it) |
| `RoleSearch.FilterIdempotent` | apps/admin-portal/src/components/users/add-user-role.tsx:74-79 | filtering a filtered list with the same query changes nothing |
| `RoleSearch.FilterEmptyIff` | apps/admin-portal/src/components/users/add-user-role.tsx:74-79 | the filter keeps nothing exactly when no role of the list shown matches |
| `RoleSearch.SubsequenceTransitive` | apps/admin-portal/src/components/users/add-user-role.tsx:74-79 | narrowing a narrowed list is a narrowing of the original |
| `RoleSearch.EmptySearchResets` | apps/admin-portal/src/components/users/add-user-role.tsx:71-83 | an empty query lists exactly the current `initialValues` prop, whatever filtering came before |
| `RoleSearch.SearchFiltersCurrent` | apps/admin-portal/src/components/users/add-user-role.tsx:71-80 | a non-empty query that matches some role shown lists exactly the matching roles in their order; one that matches none leaves the list unchanged; either way the result is a subsequence of the list shown |
| `RoleSearch.SearchesOnlyNarrow` | apps/admin-portal/src/components/users/add-user-role.tsx:67-84 | any run of non-empty queries leaves a subsequence of the list shown before it |
| `RoleSearch.SearchStaysInCatalogue` | apps/admin-portal/src/components/users/add-user-role.tsx:67-84 | if the list shown is a subsequence of the catalogue, it still is after one keystroke, whether the query resets or filters |
| `RoleSearch.SearchAllStaysInCatalogue` | apps/admin-portal/src/components/users/add-user-role.tsx:67-84 | any run of keystrokes, empty and non-empty queries mixed, keeps the list shown a subsequence of the `initialValues` catalogue |
| `RoleSearch.RepeatedSearchIsStable` | apps/admin-portal/src/components/users/add-user-role.tsx:67-84 | typing the same non-empty query again leaves the list shown as it is |
| `RoleSearch.NarrowedSearchHidesCatalogue` | apps/admin-portal/src/components/users/add-user-role.tsx:74-79 | with Admin and Viewer mounted, "adm" then "view" still lists only Admin, although "view" alone would list Viewer |
| `AddUserRoleWidget.IndexOfName` | apps/admin-portal/src/components/users/add-user-role.tsx:53 | the indexOf scan returns -1 exactly when the name is absent, and otherwise the first position holding it |
| `AddUserRoleWidget.AddUserRoleState.constructor` | apps/admin-portal/src/components/users/add-user-role.tsx:46-49 | on mount nothing is assigned, there is no message and the whole catalogue is listed, so the invariant holds |
| `AddUserRoleWidget.AddUserRoleState.AddRole` | apps/admin-portal/src/components/users/add-user-role.tsx:57-65 | the click handler's new names, ids and message are those of the add transition, it leaves the listed catalogue alone, and it keeps the invariant |
| `AddUserRoleWidget.AddUserRoleState.HandleRemoveRoleItem` | apps/admin-portal/src/components/users/add-user-role.tsx:51-55 | the delete handler changes only the names, as the remove transition says, and keeps the invariant |
| `AddUserRoleWidget.AddUserRoleState.HandleSearchFieldChange` | apps/admin-portal/src/components/users/add-user-role.tsx:67-84 | the search handler's filter loop leaves the listed roles as the search transition says, changes nothing else and keeps the invariant, so the list shown stays a subsequence of the catalogue |
| `AddUserRoleWidget.AddUserRoleState.Submit` | apps/admin-portal/src/components/users/add-user-role.tsx:88-90 | the submit handler returns the current names and ids |
| `AddUserRoleWidget.AssignTwoRoles` | apps/admin-portal/src/components/users/add-user-role.tsx:57-90 | clicking Admin then Viewer and submitting hands over the names Admin and Viewer with the ids "1" and "2" |
| `AddUserRoleWidget.AddAdminTwice` | apps/admin-portal/src/components/users/add-user-role.tsx:57-65 | clicking Admin twice on a fresh widget leaves one Admin with id "1" and the message naming Admin |
| `AddUserRoleWidget.RemoveThenReAddAdmin` | apps/admin-portal/src/components/users/add-user-role.tsx:51-63 | with Admin assigned under id "1", deleting Admin empties the names but keeps the id, and clicking Admin again is rejected with "You have already added the role: Admin" |
| `AddUserRoleWidget.AddTwiceThenReAdd` | apps/admin-portal/src/components/users/add-user-role.tsx:51-65 | after two clicks on Admin, its delete and a third click, no name is assigned, id "1" is still held and the message is "You have already added the role: Admin" |

## Left out

- Rendering: the markup and the Semantic UI components (lines 86-184, apart from the submit payload at 88-89) are presentation only.
- Submit triggering: `@wso2is/forms` watches `submitState` and fires the callback on its rising edge (line 91). That library and its edge detection are not part of this model. Submit is a method that returns the current payload.
- Regular expressions and Unicode case folding: `new RegExp(_.escapeRegExp(value), 'i').test` (lines 72, 75) becomes a literal substring test over ASCII lower-casing, `RoleText.ContainsCI`. Case folding outside ASCII is not modelled. `_.isEmpty` on the query is "length is 0".
- React state updates: each handler is one atomic update of the fields. There is no batching, no deferred re-render and no stale closure. The repeated `setRoleList(filteredRoleList)` calls (lines 77-78) act on the same array, and the model keeps only their final value.
- Changing props: the component reads its props afresh on every render (lines 40-44). `useState(initialValues)` (line 48) uses only the first value, while the reset at line 82 uses the current one, so a parent that passes a new catalogue leaves `roleList` on the old one until the search field is cleared. The model takes `initialValues` as fixed for the whole mount (a `const` of the class), because re-rendering with new props is React behaviour outside the handlers; that divergence is not modelled.
- Untyped props: `initialValues` is typed `any`, and `roleList && ...` (line 74) guards against an undefined catalogue. The model takes the catalogue as a sequence of roles and role ids as strings, so an undefined or malformed catalogue is not modelled.
- apps/console/src/features/applications/data/application-templates/application-templates-config.ts: a lodash `merge` over static JSON imports and an external `extensionsConfig()`. It has no logic of its own, and the library's deep-merge semantics are not available to model.

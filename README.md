# Honeydew, modelled in Dafny

Honeydew is a multi-tenant household todo application: a household (a
*tenant*) signs up with one Owner, the Owner adds Members, and everyone
shares a list of todos that can be filtered, sorted, paged, voted on and
exported as CSV. Households also file support tickets, keep per-user
preferences and pick a billing plan. Machine clients sign in with a client
id and secret.

This project models the business rules of the data-access and service
layers against an in-memory store, and proves what those rules promise.

- `Database.HoneydewDb` is the store: a class with one field per table
  (sequences of row values, the votes as a set of (todo, user) pairs, the
  preferences as a map keyed by user). Its `Valid()` predicate is the key and
  unique-index configuration of `HoneydewDbContext`: unique row ids, a unique
  (TenantId, Email) pair, a unique ClientId, a unique billing-plan Code.
- Each data-access class and each service is a module. Queries are functions
  over the tables. Operations that write are methods with field-grained
  `modifies` clauses, whose `ensures` give the whole new state and the results.
- EF Core's change tracking followed by `SaveChanges` is modelled as replacing
  the stored row by the edited one.
- Every service operation resolves the caller first (`UsersData.CurrentUser`:
  a user with that id in that tenant). Errors are `Result`/`Option` values
  carrying the strings the services return.
- The invariant that every household keeps an Owner (`UsersService`'s
  `OwnersKept`) is preserved by every write to the users table.
- `Entities.Int32` and `Entities.Wrap32` model C# `int` where overflow matters.
- `DateTime.UtcNow`, `Guid.NewGuid()` and the random password salt are
  parameters (`now`, fresh ids that the `requires` say are unused, `salt`).
- PBKDF2 is an injective digest `Pbkdf2(secret, salt)`. An issued JWT is the
  record of the claims it carries.
- `TodosController.BuildCsv` is a loop over a string; it is proved to produce
  text that reads back, by the rules of section 2 of RFC 4180, as the header
  record and one record per todo.

Behaviour of the code worth knowing:

- A descending `duedate` sort puts undated todos first
  (`TodoData.DueDateDescending`).
- With no recognised sort key, todos are ordered newest first whatever
  `sortDesc` says: both arms of the `createdat` case are
  `OrderByDescending` (`TodoData.DefaultSortNewestFirst`).
- The tenant-membership gates, and the check that an assignee belongs to the
  tenant, ignore `IsActive`.
- An update with a whitespace title stores an empty title
  (`TodoService.UpdateMayBlankTitle`).
- A supplied `CompletedAt` without `IsDone` is stored on an open todo
  (`TodoService.CompletedAtWithoutIsDone`).
- Any member may rename any user of the household through update-by-id, and a
  member holding `CanCreateUser` may create an Owner.
- Registration refuses an e-mail that any user of any household has, active
  or not. Login does not look at whether the household is active.
- A household without a plan reports the "Free" plan's fields while its
  `BillingPlanId` stays empty (`TenantService.FreeFallbackKeepsIdEmpty`).
- Ticket statuses are compared case-sensitively ("open" is refused).
- The data layer's `SetItemsPerPageAsync` accepts any number; only the
  service checks the allowed set.
- `ToggleVoteAsync` answers `false` both when it removes a vote and when the
  todo is not in the household.
- CSV lines end in a line feed (`StringBuilder.AppendLine` on Linux), not
  the CRLF of RFC 4180.
- Dates read back from SQLite have kind Unspecified, so `ToString("o")`
  writes no offset.

## Model

| member | source | states |
|---|---|---|
| Privilege.Has | src/Honeydew/Entities/Privilege.cs:14-28 | a privilege is granted only to an Owner or when it is one of the three named privileges |
| Privilege.CanCreateTodo | src/Honeydew/Entities/Privilege.cs:30 | every user, of either role, may create todos |
| Privilege.CanEditTodo | src/Honeydew/Entities/Privilege.cs:31 | editing all todos is allowed exactly for an Owner or a user with the CanEditAllTodos flag |
| Privilege.CanCreateUser | src/Honeydew/Entities/Privilege.cs:32 | creating users is allowed exactly for an Owner or a user with the CanCreateUser flag |
| Privilege.OwnerHasEverything | src/Honeydew/Entities/Privilege.cs:16-19 | an Owner holds every privilege, named or not |
| Privilege.MemberPrivileges | src/Honeydew/Entities/Privilege.cs:21-27 | a Member always may create todos, edits all todos iff flagged, creates users iff flagged, and holds no unnamed privilege |
| Privilege.HasDependsOnRoleAndFlags | src/Honeydew/Entities/Privilege.cs:14-28 | two users with the same role and flags hold the same privileges (nothing else about a user matters) |
| PrefsData.GetByUserId | src/Honeydew/Data/UserPreferencesDataAccess.cs:10-14 | the row is found exactly when the user has one, and it is that user's row |
| PrefsData.AfterGetOrCreate | src/Honeydew/Data/UserPreferencesDataAccess.cs:16-27 | afterwards the user has a row; an existing table is left alone, otherwise exactly one default row is added |
| PrefsData.AfterSetItemsPerPage | src/Honeydew/Data/UserPreferencesDataAccess.cs:29-43 | afterwards the user's row holds the new value, every other user's row is unchanged and only this user's key can be new |
| PrefsData.GetOrCreate | src/Honeydew/Data/UserPreferencesDataAccess.cs:16-27 | the table becomes the get-or-create table; the row returned is the stored one, the old row if there was one, the default otherwise |
| PrefsData.SetItemsPerPage | src/Honeydew/Data/UserPreferencesDataAccess.cs:29-43 | always reports success; the table becomes the upserted table |
| PrefsData.GetOrCreateOnce | src/Honeydew/Data/UserPreferencesDataAccess.cs:16-27 | get-or-create is idempotent (a second call with any default changes nothing) and adds at most one row |
| PrefsData.SetThenGet | src/Honeydew/Data/UserPreferencesDataAccess.cs:10-43 | after an upsert, reading the user's row or get-or-creating it yields the value just written |
| PrefsService.AllowedValues | src/Honeydew/Services/UserPreferencesService.cs:10 | the allowed page sizes are exactly the multiples of 3 from 9 to 24 |
| PrefsService.Get | src/Honeydew/Services/UserPreferencesService.cs:14-18 | returns the stored page size, or the default 9 after creating the row; a table of allowed values stays allowed and the answer is allowed |
| PrefsService.SetItemsPerPage | src/Honeydew/Services/UserPreferencesService.cs:20-28 | fails with "Invalid items per page value." exactly for a value outside the allowed list, changing nothing; otherwise stores it and returns it; keeps every stored value allowed |
| TenantData.GetById | src/Honeydew/Data/TenantDataAccess.cs:18-21 | the tenant found has the key asked for; none is found exactly when no tenant has it |
| TenantData.GetActiveById | src/Honeydew/Data/TenantDataAccess.cs:10-16 | the tenant found has the key and is active; none is found exactly when no active tenant has the key |
| TenantData.GetActiveIsGetById | src/Honeydew/Data/TenantDataAccess.cs:10-21 | with unique keys, the active lookup is the key lookup filtered by IsActive |
| TenantData.GetUserCount | src/Honeydew/Data/TenantDataAccess.cs:23-26 | counts the tenant's users, active or not; zero exactly when the tenant has none |
| TenantData.GetBillingPlanByCode | src/Honeydew/Data/TenantDataAccess.cs:28-33 | the plan found has the code; none exactly when no plan has it |
| TenantData.PlanOf | src/Honeydew/Data/TenantDataAccess.cs:14 | the included BillingPlan is a stored plan whose key is the tenant's BillingPlanId; it is found whenever a stored plan has that key; a tenant without one has none |
| TenantData.ReplaceTenantFinds | src/Honeydew/Data/TenantDataAccess.cs:37-43 | saving an edited tenant keeps the keys unique and the edited row is what the key lookup finds afterwards |
| TenantData.SaveTenant | src/Honeydew/Data/TenantDataAccess.cs:42-43 | saving an edit of a tracked tenant replaces that row and only it, keeps the keys unique, and the edit is found again by its key |
| TenantData.UpdateName | src/Honeydew/Data/TenantDataAccess.cs:35-45 | true exactly when the tenant exists; then only its name changes, to the trimmed name; otherwise nothing changes |
| TenantData.SetBillingPlanId | src/Honeydew/Data/TenantDataAccess.cs:47-57 | true exactly when the tenant exists; then only its plan reference changes; otherwise nothing changes |
| TenantService.ShownPlan | src/Honeydew/Services/TenantService.cs:19-27 | the plan shown is the tenant's own plan when it has one, else the plan coded "Free" if there is one |
| TenantService.GetTenant | src/Honeydew/Services/TenantService.cs:11-40 | nothing for a missing or inactive tenant; otherwise its id, name, creation time, plan reference and user count, and the name, code and maximum user count of the shown plan (the tenant's own, else the one coded "Free"), all empty only when neither exists |
| TenantService.FreeFallbackKeepsIdEmpty | src/Honeydew/Services/TenantService.cs:19-37 | a tenant without a plan is shown with the Free plan's name while its BillingPlanId stays empty |
| TenantService.UpdateName | src/Honeydew/Services/TenantService.cs:42-49 | true exactly for a non-blank name and an existing tenant; then the tenants table is the old one with that tenant's name replaced by the trimmed, non-empty name, and nothing else changed; otherwise nothing changes |
| TenantService.UpdateBillingPlan | src/Honeydew/Services/TenantService.cs:51-54 | true exactly when the tenant exists; then the tenants table is the old one with that tenant's plan reference replaced by the one given (unchecked), and nothing else changed; otherwise nothing changes |
| UsersData.GetById | src/Honeydew/Data/UsersDataAccess.cs:10-13 | the user found has the key asked for; none exactly when no row has it |
| UsersData.GetByIdFinds | src/Honeydew/Data/UsersDataAccess.cs:10-13 | with unique keys, every stored user is what the key lookup finds |
| UsersData.GetByIdAndTenantId | src/Honeydew/Data/UsersDataAccess.cs:39-49 | the user found has the key and the tenant; none exactly when no row has both |
| UsersData.CurrentUser | src/Honeydew/Services/TodoService.cs:25-29 | the caller resolved is a stored user with the caller's key and the caller's tenant |
| UsersData.CurrentUserIsTenantScoped | src/Honeydew/Services/TodoService.cs:25-29 | with unique keys, look-up-then-check-tenant is the same as the tenant-scoped query |
| UsersData.Codes | src/Honeydew/Data/UsersDataAccess.cs:22 | the sort key of a display name is its character codes, one per character |
| UsersData.CodesOrder | src/Honeydew/Data/UsersDataAccess.cs:22 | comparing those keys is the ordinal string order, both ways |
| UsersData.GetByTenantId | src/Honeydew/Data/UsersDataAccess.cs:15-23 | exactly the tenant's users (only active ones when asked), each as often as stored, in ordinal display-name order |
| UsersData.ExistsEmailInTenant | src/Honeydew/Data/UsersDataAccess.cs:25-30 | true exactly when some user of the tenant has the e-mail |
| UsersData.ExistsEmailInTenantExcludingUser | src/Honeydew/Data/UsersDataAccess.cs:32-37 | true exactly when some other user of the tenant has the e-mail |
| UsersData.FreeEmailKeepsUnique | src/Honeydew/Data/UsersDataAccess.cs:25-30 | appending a user whose (tenant, e-mail) pair is free keeps the unique index |
| UsersData.CountOwners | src/Honeydew/Data/UsersDataAccess.cs:74-77 | the number of the tenant's users whose role is Owner; zero exactly when the tenant has no Owner, and never more than the table |
| UsersData.WhereKeepsUniqueIds | src/Honeydew/Data/UsersDataAccess.cs:62-72 | any filtered table of a table with unique keys has unique keys |
| UsersData.SecondOwnerRemains | src/Honeydew/Data/UsersDataAccess.cs:62-77 | when a tenant has more than one Owner, deleting any one user leaves it an Owner |
| UsersData.RemoveAtIsWhere | src/Honeydew/Data/UsersDataAccess.cs:62-72 | with unique keys, removing the row found is the same as filtering out its key |
| UsersData.ReplaceKeepsKeys | src/Honeydew/Data/UsersDataAccess.cs:57-60 | saving an edited user keeps the keys unique, stores the edited row and keeps every other row |
| UsersData.RemoveAtKeepsEmails | src/Honeydew/Data/UsersDataAccess.cs:62-72 | removing a row keeps the (tenant, e-mail) index unique |
| UsersData.AddUser | src/Honeydew/Data/UsersDataAccess.cs:51-55 | the user is appended and the table's unique indexes still hold |
| UsersData.SaveUser | src/Honeydew/Data/UsersDataAccess.cs:57-60 | the tracked user's row is replaced by its edited value and the unique indexes still hold |
| UsersData.DeleteUser | src/Honeydew/Data/UsersDataAccess.cs:62-72 | true exactly when the user is in the tenant; then the table is the table without that key; otherwise unchanged |
| UsersService.ParseRole | src/Honeydew/Services/UsersService.cs:73-76 | a role name is recognised exactly when, trimmed and lower-cased, it is "owner" or "member" |
| UsersService.ParseRoleName | src/Honeydew/Services/UsersService.cs:234 | each role parses back from the name it is printed as |
| UsersService.ParseRoleIgnoresCase | src/Honeydew/Services/UsersService.cs:128 | parsing a role ignores letter case |
| UsersService.MapToSummary | src/Honeydew/Services/UsersService.cs:227-241 | the summary carries every public field of the user (key, e-mail, name, the three capability flags, active flag, creation time) and a role name that parses back to its role |
| UsersService.RoleName | src/Honeydew/Services/UsersService.cs:234 | definition: `UserRole.ToString()`, the role's own name "Owner" or "Member" |
| UsersService.NewUser | src/Honeydew/Services/UsersService.cs:62-93 | the stored user has the new key, the tenant, the normalised e-mail, the trimmed name, the parsed role or Member, the three capability flags as requested, is active, created now and never logged in, and its hash verifies the request's password and no other |
| UsersService.ListUsers | src/Honeydew/Services/UsersService.cs:11-31 | fails only with "Unauthorized" (exactly for an unresolved caller) or "Forbid" (exactly when the roster is not for assignment and the caller may not create users); otherwise exactly one summary per listed user of the data layer's list (so every listed user's summary, nothing else), in display-name order |
| UsersService.GetCurrentUser | src/Honeydew/Services/UsersService.cs:33-44 | "Unauthorized" exactly for an unresolved caller; otherwise the summary of the caller's own row |
| UsersService.CreateUser | src/Honeydew/Services/UsersService.cs:46-97 | fails only with the four errors, each exactly under its condition, in the source's order, and nothing stored on an error; otherwise the new user is appended and summarised; the unique indexes and every tenant's owner are kept |
| UsersService.ApplyUserUpdate | src/Honeydew/Services/UsersService.cs:121-148 | the edit keeps key, tenant, e-mail, password and timestamps, sets the trimmed display name when given, and changes role, flags and active state only for an owner editing somebody else |
| UsersService.ApplyUserUpdateIdempotent | src/Honeydew/Services/UsersService.cs:121-148 | applying the same update twice is applying it once |
| UsersService.OwnerUpdateApplies | src/Honeydew/Services/UsersService.cs:126-148 | an owner's edit of somebody else sets the parsed role and each of the four flags the request carries, keeps each flag it does not carry, and keeps the role when none is sent or it does not parse |
| UsersService.StoredEmailsDistinct | src/Honeydew/Services/UsersService.cs:150 | in a valid table, rows with different keys never share a (tenant, e-mail) pair |
| UsersService.ReplaceKeepsOwners | src/Honeydew/Services/UsersService.cs:126-150 | an edit that keeps the role, or demotes a user while another owner of the tenant remains, keeps every tenant's owner |
| UsersService.UpdateUser | src/Honeydew/Services/UsersService.cs:99-152 | fails only with "Unauthorized" or "NotFound", each exactly under its condition, with nothing changed; otherwise the target's row becomes the edit and is summarised; every tenant keeps its owner |
| UsersService.UpdateCurrentUser | src/Honeydew/Services/UsersService.cs:154-187 | fails only with "Unauthorized", "Email cannot be empty." or the e-mail-in-use error, each exactly under its condition, with nothing saved; otherwise the caller's name and e-mail are updated as sent; the unique index and the owners are kept |
| UsersService.DeleteUser | src/Honeydew/Services/UsersService.cs:189-225 | fails only with the four refusals ("Unauthorized", "NotFound", "Forbid", last owner), each exactly under its condition, with nothing changed; otherwise the user is gone and only it; no tenant loses its last owner |
| UsersService.DeletionKeepsOwners | src/Honeydew/Services/UsersService.cs:214-223 | deleting a user keeps every tenant's owner when the user is not an owner or a second owner remains |
| TodoData.Filtered | src/Honeydew/Data/TodoDataAccess.cs:23-41 | the filter chain keeps exactly the items the conjunction of the active filters admits (tenant, creator when only-mine, listed assignees, open unless completed are included, trimmed lower-cased search in title or notes) |
| TodoData.MatchesSearch | src/Honeydew/Data/TodoDataAccess.cs:39-40 | definition: the lower-cased title contains the term, or the notes are present and their lower-cased text contains it |
| TodoData.FilteredIsOneWhere | src/Honeydew/Data/TodoDataAccess.cs:23-41 | the stage-by-stage chain equals one filter by that conjunction, so table order is kept |
| TodoData.ApplySort | src/Honeydew/Data/TodoDataAccess.cs:53-61 | the sort is a permutation of its input, ordered by the key the requested column selects |
| TodoData.SortKey | src/Honeydew/Data/TodoDataAccess.cs:55-60 | definition: the lower-cased column picks the key: "duedate" the due-date keys, "completedat" or "donedate" the completion keys, anything else (null included) newest-created first whatever the direction |
| TodoData.Lex2 | src/Honeydew/Data/TodoDataAccess.cs:57 | a two-part key (OrderBy then ThenBy) compares by its first part, then by its second |
| TodoData.Lex3 | src/Honeydew/Data/TodoDataAccess.cs:71-73 | a three-part key compares part by part |
| TodoData.DefaultSortNewestFirst | src/Honeydew/Data/TodoDataAccess.cs:59 | with no recognised column, the order is newest created first and the descending flag makes no difference |
| TodoData.DueDateAscending | src/Honeydew/Data/TodoDataAccess.cs:57 | ascending "duedate": dated items first by due date, undated items last |
| TodoData.DueDateDescending | src/Honeydew/Data/TodoDataAccess.cs:57 | descending "duedate": undated items first, then the latest due date first |
| TodoData.CompletedAtOrder | src/Honeydew/Data/TodoDataAccess.cs:58 | "completedat" or "donedate": uncompleted items first and earliest completion first ascending, the reverse descending |
| TodoData.TimesIsProduct | src/Honeydew/Data/TodoDataAccess.cs:47 | the repeated-addition product used for the page offset is multiplication |
| TodoData.PageOffset | src/Honeydew/Data/TodoDataAccess.cs:47 | the mathematical offset `(page - 1) * pageSize` is not negative for a page of at least 1 and a size of at least 0 |
| TodoData.PageStart | src/Honeydew/Data/TodoDataAccess.cs:47 | the page starts inside the sequence |
| TodoData.PageEnd | src/Honeydew/Data/TodoDataAccess.cs:48 | the page ends between its start and the end of the sequence |
| TodoData.PageOf | src/Honeydew/Data/TodoDataAccess.cs:46-49 | a page holds only items of the sorted sequence and, for a size of at least 0, no more than the size |
| TodoData.PageOfIsSkipTake | src/Honeydew/Data/TodoDataAccess.cs:46-49 | the page is Skip(offset) then Take(pageSize) with SQLite's reading of negative offsets and limits |
| TodoData.SortedMatches | src/Honeydew/Data/TodoDataAccess.cs:23-43 | exactly the admitted items, each as often as the filter keeps it (the same multiset as one `Where` over the table), in the requested order |
| TodoData.GetPage | src/Honeydew/Data/TodoDataAccess.cs:10-51 | the page holds only admitted items of the tenant, no more than the page size, and the total counts every admitted item |
| TodoData.GetPageAsWritten | src/Honeydew/Data/TodoDataAccess.cs:10-51 | the as-written page also holds only admitted items, no more than the page size, and reports the same total |
| TodoData.GetPageIsSlice | src/Honeydew/Data/TodoDataAccess.cs:43-49 | a page is the run of the sorted matches starting at `(page - 1) * pageSize`, as long as the page size or what is left |
| TodoData.GetPagePastEnd | src/Honeydew/Data/TodoDataAccess.cs:46-49 | a page starting past the last match is empty |
| TodoData.PageIsSlice | src/Honeydew/Data/TodoDataAccess.cs:46-49 | a page at a non-negative offset and size is the run at that offset, empty past the end |
| TodoData.PageOfSlice | src/Honeydew/Data/TodoDataAccess.cs:46-49 | without negative offset or limit, a page is a plain slice |
| TodoData.PageOffsetNext | src/Honeydew/Data/TodoDataAccess.cs:47 | the next page starts one page size further on |
| TodoData.GetPageSorted | src/Honeydew/Data/TodoDataAccess.cs:43-49 | every page is in the requested order |
| TodoData.SuccessivePagesAdjacent | src/Honeydew/Data/TodoDataAccess.cs:46-49 | two successive full pages are adjacent runs of the order, with nothing skipped or repeated |
| TodoData.TotalCountIgnoresPage | src/Honeydew/Data/TodoDataAccess.cs:45 | the total does not depend on the page or its size |
| TodoData.PageOffsetWraps | src/Honeydew/Data/TodoDataAccess.cs:47 | page 715827884 of size 3 has offset 2147483649, which the 32-bit expression wraps to -2147483647 |
| TodoData.AsWrittenReturnsFirstPage | src/Honeydew/Data/TodoDataAccess.cs:46-49 | as written, that request returns page 1 |
| TodoData.AsWrittenAgreesWhenNoWrap | src/Honeydew/Data/TodoDataAccess.cs:46-49 | while `page - 1` and `(page - 1) * pageSize` fit in an `int`, the page as written is the corrected page |
| TodoData.CorrectedPageIsEmpty | src/Honeydew/Data/TodoDataAccess.cs:46-49 | with the offset computed without overflow, that page is empty for any table of fewer than 2^31 rows |
| TodoData.TopAssignedOrder | src/Honeydew/Data/TodoDataAccess.cs:71-73 | the top-assigned key orders soonest due first, undated last, ties newest created first |
| TodoData.TopAssignedKeyBefore | src/Honeydew/Data/TodoDataAccess.cs:71-73 | a todo whose top-assigned key is no greater than another's is due no later, undated only if the other is, and on equal due dates created no earlier |
| TodoData.TakeSorted | src/Honeydew/Data/TodoDataAccess.cs:74 | taking a prefix of a sorted sequence keeps it sorted and adds nothing |
| TodoData.TakeLeavesLater | src/Honeydew/Data/TodoDataAccess.cs:74 | what `Take` keeps of a sorted sequence is a sub-multiset of it, and every element it leaves out has a key no smaller than every one it keeps |
| TodoData.TopAssignedCut | src/Honeydew/Data/TodoDataAccess.cs:69-75 | the first `take` of the sorted open todos are drawn from the open ones, and every open todo left out comes after every one kept |
| TodoData.GetTopAssignedToUser | src/Honeydew/Data/TodoDataAccess.cs:63-76 | only the user's open todos in the tenant, in top-assigned order; exactly `take` of them (all when fewer, or when `take` is negative), drawn from the open ones as a sub-multiset, and every open todo left out sorts no earlier than every one kept |
| TodoData.ExportSelectionIsOneWhere | src/Honeydew/Data/TodoDataAccess.cs:84-88 | the export's one or two filters are one filter, so table order is kept |
| TodoData.CreatedDescOrder | src/Honeydew/Data/TodoDataAccess.cs:89 | a sequence sorted by the created-descending key is newest first |
| TodoData.GetAllForExport | src/Honeydew/Data/TodoDataAccess.cs:78-90 | a permutation of the tenant's todos (or only the creator's), newest first |
| TodoData.GetById | src/Honeydew/Data/TodoDataAccess.cs:92-102 | the todo found has the id and the tenant; none exactly when no row has both |
| TodoData.GetByIdUnique | src/Honeydew/Data/TodoDataAccess.cs:92-96 | with unique ids, the lookup finds the row with the id exactly when its tenant matches |
| TodoData.GetVoteCounts | src/Honeydew/Data/TodoDataAccess.cs:116-128 | a count for exactly the listed ids that have votes, each the number of vote rows for that id |
| TodoData.VoteCountOrZero | src/Honeydew/Data/TodoDataAccess.cs:116-128 | reading a listed id's count with default 0 is its number of votes |
| TodoData.GetUserVotedTodoIds | src/Honeydew/Data/TodoDataAccess.cs:130-141 | exactly the listed ids the user has voted for |
| TodoData.ToggleTwice | src/Honeydew/Data/TodoDataAccess.cs:143-160 | toggling a vote twice restores the votes |
| TodoData.ToggleCounts | src/Honeydew/Data/TodoDataAccess.cs:143-160 | a toggle moves that todo's vote count by one and leaves other todos' votes alone |
| TodoData.AddTodo | src/Honeydew/Data/TodoDataAccess.cs:104-109 | the row is appended and returned, and the todo keys stay unique |
| TodoData.ReplaceTodoKeys | src/Honeydew/Data/TodoDataAccess.cs:111-114 | saving an edited todo keeps the todo keys unique |
| TodoData.ReplaceTodoFinds | src/Honeydew/Data/TodoDataAccess.cs:111-114 | after saving, the lookup finds the edited row and every other row is still there |
| TodoData.SaveTodo | src/Honeydew/Data/TodoDataAccess.cs:111-114 | the tracked todo's row becomes its edited value; the keys stay unique |
| TodoData.ToggleVote | src/Honeydew/Data/TodoDataAccess.cs:143-160 | a todo not in the tenant gives false with no change; otherwise the vote row is flipped and the result says whether it was added |
| TodoService.Respond | src/Honeydew/Services/TodoService.cs:37-39 | one response per todo, in order, each carrying that todo's number of votes and whether the caller voted for it |
| TodoService.Map | src/Honeydew/Services/TodoService.cs:227-243 | definition: the response copies the todo's id, title, notes, done flag, completion, due and creation times, creator and assignee, and carries the vote count and the caller's voted flag it is given |
| TodoService.CanViewAll | src/Honeydew/Services/TodoService.cs:60 | definition: the caller may view every todo exactly when an Owner or holding CanViewAllTodos |
| TodoService.EffectiveFilter | src/Honeydew/Services/TodoService.cs:31-36 | the query is scoped to the tenant, and filters by creator, the caller, exactly when the caller asked for only its own or may not view all |
| TodoService.GetTodoPage | src/Honeydew/Services/TodoService.cs:12-41 | "Unauthorized" exactly for an unresolved caller; otherwise the responses of the data page's todos (each with its vote count and the caller's vote) in order with the data total, no more than the page size, only the tenant's todos, only the caller's own when it asked or may not view all |
| TodoService.ResponsesOf | src/Honeydew/Services/TodoService.cs:39 | every response stands for an admitted todo, and with the creator filter on it is the caller's |
| TodoService.GetTodoById | src/Honeydew/Services/TodoService.cs:43-68 | fails only with "Unauthorized", "NotFound" or "Forbid" (a caller who may not view all asking for somebody else's todo), each exactly under its condition; otherwise the todo with its votes |
| TodoService.NewTodo | src/Honeydew/Services/TodoService.cs:95-106 | the stored todo has the new key, the tenant, the trimmed, non-empty title, notes trimmed or none when blank, the due date asked for, is open and uncompleted, created now by the caller and assigned as asked |
| TodoService.CreateTodo | src/Honeydew/Services/TodoService.cs:70-109 | fails only with "Unauthorized", the title error or the assignee error (never "Forbid"), each exactly under its condition, with nothing stored; otherwise the new todo is appended and returned with no votes |
| TodoService.ApplyTodoUpdate | src/Honeydew/Services/TodoService.cs:136-165 | keeps key, tenant, creator and creation time; sets each field the request carries (title and notes trimmed, blank notes cleared, due date as sent) and keeps each it does not; setting IsDone sets CompletedAt to the supplied time, else to now when done and to nothing when not done; a bare CompletedAt is stored as given |
| TodoService.ApplyTodoUpdateIdempotent | src/Honeydew/Services/TodoService.cs:136-165 | applying the same update twice at the same instant is applying it once |
| TodoService.EmptyTodoUpdate | src/Honeydew/Services/TodoService.cs:136-165 | an update carrying no field leaves the todo unchanged |
| TodoService.UpdateMayBlankTitle | src/Honeydew/Services/TodoService.cs:136-139 | a blank title in an update is stored as the empty title (creation refuses it) |
| TodoService.CompletedAtWithoutIsDone | src/Honeydew/Services/TodoService.cs:162-165 | a completion time sent without IsDone is stored on a todo that stays not done |
| TodoService.UpdateTodoError | src/Honeydew/Services/TodoService.cs:118-150 | the refusals in the source's order, each exactly under its condition: unresolved caller, todo not in the tenant, not an editor of all nor creator nor assignee, assignee not in the tenant |
| TodoService.MayEdit | src/Honeydew/Services/TodoService.cs:129-131 | definition: the caller may edit a todo exactly when `Privilege.CanEditTodo` holds (Owner or CanEditAllTodos), or it created the todo, or it is the todo's current assignee |
| TodoService.UpdateTodo | src/Honeydew/Services/TodoService.cs:111-171 | fails exactly when a refusal applies, with that refusal and nothing saved; otherwise the todo's row becomes the edit, is found again, and is returned with its votes |
| TodoService.ExportTodos | src/Honeydew/Services/TodoService.cs:173-192 | fails only with "Unauthorized" or "Forbid" (exporting everything without the view-all capability), each exactly under its condition; otherwise the export rows |
| TodoService.ExportRows | src/Honeydew/Services/TodoService.cs:190-191 | exactly one row per todo of the data layer's export list, mapped with no vote data (so every admitted todo of the tenant appears, and nothing else); only the caller's own when only-mine; newest first |
| TodoService.TopAssignedToMe | src/Honeydew/Services/TodoService.cs:194-210 | "Unauthorized" exactly for an unresolved caller; otherwise the responses of the data layer's top-assigned list for the caller, in its order: at most `take` open todos assigned to the caller, each with its vote count |
| TodoService.ToggleTodoVote | src/Honeydew/Services/TodoService.cs:212-225 | fails only with "Unauthorized", exactly for an unresolved caller, with no change; a todo not in the tenant answers false with no change; otherwise the vote is flipped and the answer says whether it was added |
| TicketsData.Lex1 | src/Honeydew/Data/SupportTicketsDataAccess.cs:15 | a one-part key compares by its part |
| TicketsData.NewestFirstOrder | src/Honeydew/Data/SupportTicketsDataAccess.cs:15 | tickets sorted by the newest-first key are in descending creation order |
| TicketsData.OldestFirstOrder | src/Honeydew/Data/SupportTicketsDataAccess.cs:29 | replies sorted by the oldest-first key are in ascending creation order |
| TicketsData.GetByTenantId | src/Honeydew/Data/SupportTicketsDataAccess.cs:10-17 | a permutation of exactly the tenant's tickets, newest created first |
| TicketsData.GetById | src/Honeydew/Data/SupportTicketsDataAccess.cs:19-23 | the ticket found has the id and the tenant; none exactly when no ticket has both |
| TicketsData.RepliesOf | src/Honeydew/Data/SupportTicketsDataAccess.cs:29 | a permutation of exactly the ticket's replies, earliest written first |
| TicketsData.GetByIdWithReplies | src/Honeydew/Data/SupportTicketsDataAccess.cs:25-31 | found exactly when the tenant has the ticket; then that ticket with its ordered replies |
| TicketsData.AddTicket | src/Honeydew/Data/SupportTicketsDataAccess.cs:33-38 | the ticket is appended and returned; the keys stay unique |
| TicketsData.AddReply | src/Honeydew/Data/SupportTicketsDataAccess.cs:40-45 | the reply is appended and returned; the keys stay unique |
| TicketsData.AddedReplyIsListed | src/Honeydew/Data/SupportTicketsDataAccess.cs:25-45 | an added reply is listed with its ticket, and so is every reply listed before |
| TicketsData.ReplaceTicket | src/Honeydew/Data/SupportTicketsDataAccess.cs:54-56 | saving an edited ticket changes only the row with its key |
| TicketsData.ReplaceTicketFinds | src/Honeydew/Data/SupportTicketsDataAccess.cs:54-56 | after saving, the keys stay unique and the lookup finds the edited ticket |
| TicketsData.UpdateStatus | src/Honeydew/Data/SupportTicketsDataAccess.cs:47-58 | true exactly when the tenant has the ticket; then only its status and update time change; otherwise nothing changes |
| TicketsService.ListTickets | src/Honeydew/Services/SupportTicketsService.cs:12-25 | "Unauthorized" exactly for an unresolved caller; otherwise exactly one response per ticket of the data layer's tenant list (so every ticket of the tenant, nothing else), newest first |
| TicketsService.MapTicket | src/Honeydew/Services/SupportTicketsService.cs:132-144 | definition: the response copies the ticket's id, tenant, subject, body, status and both timestamps |
| TicketsService.MapReply | src/Honeydew/Services/SupportTicketsService.cs:161-171 | definition: the response copies the reply's id, ticket id, body, staff flag and creation time |
| TicketsService.NewTicket | src/Honeydew/Services/SupportTicketsService.cs:43-51 | the stored ticket is open, has the trimmed subject (empty exactly when blank) and the trimmed body, a missing body read as empty |
| TicketsService.CreateTicketError | src/Honeydew/Services/SupportTicketsService.cs:33-41 | "Unauthorized" for an unresolved caller, then "Subject is required." for a blank subject, and no refusal otherwise |
| TicketsService.CreateTicket | src/Honeydew/Services/SupportTicketsService.cs:27-54 | fails exactly when a refusal applies, with nothing stored; otherwise the new ticket is appended and returned |
| TicketsService.GetTicketWithReplies | src/Honeydew/Services/SupportTicketsService.cs:56-74 | "Unauthorized" and "NotFound" exactly under their conditions; otherwise the tenant's ticket with exactly one response per reply of the data layer's `RepliesOf` list (all its replies, none of another ticket), earliest first |
| TicketsService.NewReply | src/Honeydew/Services/SupportTicketsService.cs:99-106 | the stored reply has the trimmed, non-empty body and is not from staff |
| TicketsService.AddReply | src/Honeydew/Services/SupportTicketsService.cs:76-109 | fails only with "Unauthorized", "NotFound" or "Body is required.", each exactly under its condition, in that order, with nothing stored; otherwise the reply is appended, returned and listed with its ticket |
| TicketsService.RequestedStatus | src/Honeydew/Services/SupportTicketsService.cs:123 | a missing status means "Open"; a given one is trimmed |
| TicketsService.ValidStatus | src/Honeydew/Services/SupportTicketsService.cs:124 | definition: a status is accepted exactly when it is "Open" or "Closed", compared case-sensitively |
| TicketsService.UpdateStatus | src/Honeydew/Services/SupportTicketsService.cs:111-130 | fails only with "Unauthorized", the status error (anything but exactly "Open" or "Closed" after trimming) or "NotFound", each exactly under its condition, with nothing changed; otherwise the tickets table is the old one with that ticket's status and update time replaced, and nothing else changed |
| Hashing.HashPassword | src/Honeydew/Services/PasswordHasher.cs:12-22 | the salt returned is the one stored, and the stored pair verifies this password and no other |
| Hashing.NoSaltNeverVerifies | src/Honeydew/Services/PasswordHasher.cs:26-29 | a row with no salt, or an empty one, never verifies any password |
| Hashing.VerifyPassword | src/Honeydew/Services/PasswordHasher.cs:24-38 | definition: false for a missing or empty salt, else the stored digest equals `Pbkdf2(password, salt)` (the fixed-time comparison read as equality) |
| Hashing.HashClientSecret | src/Honeydew/Services/ClientSecretHasher.cs:12-22 | the client id is the salt, and no other secret gives the same digest under it |
| Hashing.ClientSecretRoundTrip | src/Honeydew/Services/ClientSecretHasher.cs:12-31 | a hashed secret verifies under its client id, and a secret verifies exactly when it and the client id are the ones hashed |
| Hashing.VerifyClientSecret | src/Honeydew/Services/ClientSecretHasher.cs:24-30 | definition: the secret is hashed again under the client id and compared with the stored digest |
| AuthData.AnyUserWithEmail | src/Honeydew/Data/AuthDataAccess.cs:10-15 | true exactly when a user of any tenant has the e-mail |
| AuthData.GetUsersByEmailWithTenant | src/Honeydew/Data/AuthDataAccess.cs:17-23 | a user is returned exactly when it is active and has that exact e-mail, in any tenant (the query has no ordering) |
| AuthData.ByEmailOnePerTenant | src/Honeydew/Data/AuthDataAccess.cs:17-23 | with the (tenant, e-mail) index unique, those users lie in pairwise different tenants |
| AuthData.WhereKeepsEmailIndex | src/Honeydew/Data/AuthDataAccess.cs:17-23 | every filtered table of a table with that unique index keeps it |
| AuthData.AddTenantAndUser | src/Honeydew/Data/AuthDataAccess.cs:25-30 | the tenant and the user are each appended, in one save, and the indexes hold |
| AuthData.UpdateUserLastLogin | src/Honeydew/Data/AuthDataAccess.cs:32-40 | a missing user changes nothing; otherwise only that user's last-login time changes, to now; the indexes and owners are kept |
| AuthData.GetApiClientByClientId | src/Honeydew/Data/AuthDataAccess.cs:42-47 | the client found has the client id and is active; none exactly when no active client has it |
| AuthData.AnyApiClientWithClientId | src/Honeydew/Data/AuthDataAccess.cs:49-54 | true exactly when any client, active or not, has the client id |
| AuthData.AddApiClient | src/Honeydew/Data/AuthDataAccess.cs:56-60 | the client is appended and the key and client-id indexes hold |
| AuthService.NewOwner | src/Honeydew/Services/AuthService.cs:39-53 | the owner row has the normalised e-mail and trimmed name, is active, an Owner of its tenant with every flag set, never signed in, and verifies exactly the password given |
| AuthService.NewTenant | src/Honeydew/Services/AuthService.cs:31-38 | definition: the household row is active, has the trimmed name, is created now, and has no billing plan |
| AuthService.UserTokenOf | src/Honeydew/Services/JwtService.cs:16-30 | definition: a user's token carries its id, tenant, e-mail, role and the three capability flags; the signature and expiry are not modelled |
| AuthService.ClientTokenOf | src/Honeydew/Services/JwtService.cs:32-42 | definition: a client's token carries its key, its client id and its tenant; the signature and expiry are not modelled |
| AuthService.RegisterTenant | src/Honeydew/Services/AuthService.cs:13-58 | the two refusals exactly under their conditions (the e-mail checked across all tenants), with nothing stored and no token; otherwise the household and its owner are stored, the owner's token is issued, the tenant has an owner and the owner can sign in without naming a tenant |
| AuthService.LoginCandidate | src/Honeydew/Services/AuthService.cs:72-98 | the account picked is active with the e-mail and in the tenant asked for; the multiple-tenants refusal exactly when no tenant is named and several accounts match; without a tenant it succeeds exactly for a single match, with one exactly when some match is in that tenant |
| AuthService.LoginCandidateUnique | src/Honeydew/Services/AuthService.cs:85 | with a tenant named and the index unique, the account picked is the tenant's account with that e-mail |
| AuthService.SignUpThenSignIn | src/Honeydew/Services/AuthService.cs:26-29 | after sign-up the address belongs to the owner alone, so a sign-in picks the owner with or without naming its tenant |
| AuthService.Login | src/Honeydew/Services/AuthService.cs:60-108 | success exactly for present credentials, a picked account and a password that verifies; then the account's token and a new last-login time; every refusal has its message, no token and changes nothing |
| AuthService.GetClientToken | src/Honeydew/Services/AuthService.cs:110-133 | success exactly for a trimmed client id and secret that are present, an active client with that id and a secret that verifies; then that client's token; otherwise one of the two refusals, with no token |
| AuthService.ClientTokenIffSecret | src/Honeydew/Services/AuthService.cs:110-133 | an active registered client gets a token, naming it, for exactly the secret it was registered with |
| AuthService.NewApiClient | src/Honeydew/Services/AuthService.cs:159-169 | the client row has the trimmed client id, the tenant, is active, and verifies exactly the secret given |
| AuthService.ClientErrorsDiffer | src/Honeydew/Services/AuthService.cs:145-157 | proof helper, not a property of the service: the three refusal literals differ, so each refusal clause of `CreateApiClient` names one condition |
| AuthService.NewClientIssued | src/Honeydew/Services/AuthService.cs:110-133 | a client added under an unused id gets a token naming it for its own secret |
| AuthService.CreateApiClient | src/Honeydew/Services/AuthService.cs:135-172 | the three refusals exactly under their conditions, in order, with nothing stored; otherwise the client is stored, its trimmed id returned, and its own secret now earns a token naming it |
| Entities.Wrap32 | src/Honeydew/Data/TodoDataAccess.cs:47 | C# unchecked `int` arithmetic: the result is congruent to the mathematical one modulo 2^32 and equals it when it fits |
| Database.HoneydewDb.constructor | src/Honeydew/Data/HoneydewDbContext.cs:9-17 | an empty store, every table empty, with the unique keys and indexes holding |
| Strings.TrimStart | src/Honeydew/Services/TodoService.cs:101 | a suffix of the input that does not start with white space, everything dropped being white space |
| Strings.TrimEnd | src/Honeydew/Services/TodoService.cs:101 | a prefix of the input that does not end with white space, everything dropped being white space |
| Strings.Trim | src/Honeydew/Services/TodoService.cs:101 | no longer than the input, and neither starting nor ending with white space |
| Strings.TrimKeepsRun | src/Honeydew/Services/TodoService.cs:101 | the trim is a prefix of the suffix that starts where the leading white space ends, so a contiguous run of the input |
| Strings.TrimDropsTrailingWhite | src/Honeydew/Services/TodoService.cs:101 | everything after that run is white space (everything before it is, by the contract of `TrimStart`) |
| Strings.TrimmedIsFixed | src/Honeydew/Services/SupportTicketsService.cs:123 | text without leading or trailing white space is its own trim |
| Strings.TrimIdempotent | src/Honeydew/Services/TenantService.cs:48 | trimming twice is trimming once |
| Strings.TrimEmptyIffBlank | src/Honeydew/Services/TodoService.cs:85-101 | the trim is empty exactly when the text is white space only, so a title that passes `IsNullOrWhiteSpace` is stored non-empty |
| Strings.IsWhiteSpace | src/Honeydew/Services/TodoService.cs:85 | definition: `char.IsWhiteSpace`, U+0009 to U+000D, U+0085 and the Unicode space, line and paragraph separators |
| Strings.IsNullOrWhiteSpace | src/Honeydew/Services/TodoService.cs:85 | definition: `string.IsNullOrWhiteSpace`, null or every character white space (the empty string included) |
| Strings.LowerChar | src/Honeydew/Data/TodoDataAccess.cs:40 | upper-case ASCII letters move to lower case and every other character is kept |
| Strings.ToLower | src/Honeydew/Data/TodoDataAccess.cs:40 | same length, each character lower-cased in place |
| Strings.ToLowerIdempotent | src/Honeydew/Data/TodoDataAccess.cs:39-40 | lower-casing twice is lower-casing once |
| Strings.NormalizeEmail | src/Honeydew/Services/AuthService.cs:20 | the stored e-mail form is the trimmed input lower-cased: as long as the trim, and holding no upper-case letter |
| Strings.NormalizeEmailEmpty | src/Honeydew/Services/AuthService.cs:20 | the normalised address is empty exactly when the input is blank |
| Strings.NormalizeEmailEnds | src/Honeydew/Services/AuthService.cs:20 | the normalised address neither starts nor ends with white space |
| Strings.LowerCharWhiteSpace | src/Honeydew/Services/AuthService.cs:20 | lower-casing a character keeps it white space exactly when it was |
| Strings.TrimStartToLower | src/Honeydew/Services/AuthService.cs:20 | lower-casing and trimming the front commute |
| Strings.TrimEndToLower | src/Honeydew/Services/AuthService.cs:20 | lower-casing and trimming the end commute |
| Strings.NormalizeEmailIdempotent | src/Honeydew/Services/UsersService.cs:173 | normalising a stored e-mail again changes nothing, so a lookup with a stored address finds it |
| Linq.Where | src/Honeydew/Data/TodoDataAccess.cs:23-35 | exactly the elements passing the filter, in their order, a sub-multiset of the table |
| Linq.WhereAppend | src/Honeydew/Data/TodoDataAccess.cs:23 | filtering distributes over appending rows |
| Linq.WhereWhere | src/Honeydew/Data/TodoDataAccess.cs:23-35 | chained filters are one filter by their conjunction |
| Linq.WhereExt | src/Honeydew/Data/TodoDataAccess.cs:23-35 | filters that agree on every row give the same rows |
| Linq.WhereAll | src/Honeydew/Data/UsersDataAccess.cs:17-20 | a filter every row passes keeps the table as it is |
| Linq.IndexWhere | src/Honeydew/Data/UsersDataAccess.cs:64 | the first position whose row matches; none exactly when no row matches |
| Linq.FirstOrDefault | src/Honeydew/Data/TodoDataAccess.cs:95 | a matching row of the table; null exactly when no row matches |
| Linq.Any | src/Honeydew/Data/AuthDataAccess.cs:14 | true exactly when some row matches |
| Linq.Count | src/Honeydew/Data/TodoDataAccess.cs:45 | the number of matching rows, zero exactly when none matches |
| Linq.Select | src/Honeydew/Services/SupportTicketsService.cs:24 | one result per element, in order, each the mapped element |
| Linq.SelectMembers | src/Honeydew/Services/SupportTicketsService.cs:24 | every mapped element is in the result and every result element is some element mapped |
| Linq.RemoveAt | src/Honeydew/Data/UsersDataAccess.cs:69 | the table without the removed row, the others in their order |
| Linq.RemoveAtCons | src/Honeydew/Data/UsersDataAccess.cs:69 | removing a row past the first keeps the first row in front |
| Linq.Skip | src/Honeydew/Data/TodoDataAccess.cs:47 | SQLite `OFFSET`: the rows after the offset, a negative offset skipping nothing |
| Linq.Take | src/Honeydew/Data/TodoDataAccess.cs:48 | SQLite `LIMIT`: the first rows up to the limit, a negative limit taking all |
| Ordering.LexLeTotal | src/Honeydew/Data/TodoDataAccess.cs:71-73 | any two key chains compare one way or the other |
| Ordering.LexLeTransitive | src/Honeydew/Data/TodoDataAccess.cs:71-73 | the key-chain order is transitive |
| Ordering.LexLeReflexive | src/Honeydew/Data/TodoDataAccess.cs:71-73 | every key chain is at most itself |
| Ordering.Insert | src/Honeydew/Data/TodoDataAccess.cs:71-73 | one more element, the rest kept |
| Ordering.SortBy | src/Honeydew/Data/TodoDataAccess.cs:71-73 | a permutation of its input |
| Ordering.InsertSorted | src/Honeydew/Data/TodoDataAccess.cs:71-73 | inserting into a sorted sequence keeps it sorted |
| Ordering.SortBySorted | src/Honeydew/Data/TodoDataAccess.cs:53-61 | the result is ordered by the key chain and is a permutation of the input |
| Ordering.SortedSlice | src/Honeydew/Data/TodoDataAccess.cs:46-48 | a page of a sorted result is sorted |
| Ordering.BoolKey | src/Honeydew/Data/TodoDataAccess.cs:57 | `false` orders before `true`, as SQLite orders 0 before 1 |
| Formatting.HexValue | src/Honeydew/Controllers/TodosController.cs:206 | a hex digit's value is below 16 and writes back as the same digit |
| Formatting.Hex | src/Honeydew/Controllers/TodosController.cs:206 | exactly the width asked, all hex digits |
| Formatting.HexRoundTrip | src/Honeydew/Controllers/TodosController.cs:206 | the hex digits of a number that fits read back as the number |
| Formatting.DecValue | src/Honeydew/Controllers/TodosController.cs:204 | a decimal digit's value is below 10 and writes back as the same digit |
| Formatting.Dec | src/Honeydew/Controllers/TodosController.cs:204 | at least the width asked, all decimal digits |
| Formatting.DecRoundTrip | src/Honeydew/Controllers/TodosController.cs:204 | the digits read back as the number, and a number below 10^width takes exactly that width |
| Formatting.GuidText | src/Honeydew/Controllers/TodosController.cs:206-207 | a Guid is written in the 8-4-4-4-12 layout, hyphens at 8, 13, 18 and 23 and hex digits elsewhere |
| Formatting.FormatGuid | src/Honeydew/Controllers/TodosController.cs:206-207 | definition: `Guid.ToString()`, 32 lower-case hex digits split 8-4-4-4-12 by hyphens |
| Formatting.GuidRoundTrip | src/Honeydew/Controllers/TodosController.cs:206-207 | the written Guid parses back to the same Guid |
| Formatting.FormatBool | src/Honeydew/Controllers/TodosController.cs:207 | "True" exactly for true, otherwise "False" |
| Formatting.MonthLength | src/Honeydew/Controllers/TodosController.cs:204-205 | each month has between 1 and 31 days |
| Formatting.MonthOf | src/Honeydew/Controllers/TodosController.cs:204-205 | the month a day of the year falls in |
| Formatting.CyclesOf | src/Honeydew/Controllers/TodosController.cs:204-205 | the day count splits into 400-, 100-, 4- and 1-year cycles and a day of a year that exists |
| Formatting.DatePart | src/Honeydew/Controllers/TodosController.cs:204-205 | a calendar date with year at least 1, month 1-12 and day 1-31 |
| Formatting.CivilOf | src/Honeydew/Controllers/TodosController.cs:204-205 | the date of the day count and a time of day within range |
| Formatting.TimeOfDayRecombines | src/Honeydew/Controllers/TodosController.cs:204-205 | the hours, minutes, seconds and fraction add back up to the ticks past midnight |
| Formatting.DateRecombines | src/Honeydew/Controllers/TodosController.cs:204-205 | the date's leap flag is the Gregorian rule, and the days before its year and month plus its day add back up to the day count |
| Formatting.LeapRule | src/Honeydew/Controllers/TodosController.cs:204-205 | the cycles' leap flag for a year is the Gregorian leap-year rule |
| Formatting.YearStart | src/Honeydew/Controllers/TodosController.cs:204-205 | the cycles' day counts are the days before the year |
| Formatting.RoundTripDateChars | src/Honeydew/Controllers/TodosController.cs:204-207 | an "o" date is at least 27 characters of digits and `-`, `T`, `:`, `.` only |
| Formatting.FormatRoundTripDate | src/Honeydew/Controllers/TodosController.cs:204-207 | definition: `DateTime.ToString("o")` for kind Unspecified, the calendar fields of the ticks written as `yyyy-MM-ddTHH:mm:ss.fffffff` |
| Formatting.RenderCivilLayout | src/Honeydew/Controllers/TodosController.cs:204-207 | fields that fit their widths give 27 characters with the separators in place, each field reading back as its value |
| Formatting.RoundTripDateLayout | src/Honeydew/Controllers/TodosController.cs:204-207 | before year 10000 the "o" text has the fixed layout and reads back as the calendar fields of the ticks |
| Csv.Escape | src/Honeydew/Controllers/TodosController.cs:203 | doubling quotes never shortens the text |
| Csv.BareSafeChars | src/Honeydew/Controllers/TodosController.cs:207 | text is safe to write unquoted exactly when each character is neither comma, quote nor line break |
| Csv.JoinFieldsFront | src/Honeydew/Controllers/TodosController.cs:207 | a line of several fields is its first field, a comma, and the rest |
| Csv.JoinFieldsBack | src/Honeydew/Controllers/TodosController.cs:207 | a line of several fields is the line before its last field, a comma, and the last |
| Csv.RenderAllAppend | src/Honeydew/Controllers/TodosController.cs:201-208 | one more record appends its line |
| Csv.ParseQuotedBody | src/Honeydew/Controllers/TodosController.cs:203 | what the reader leaves after a quoted field is shorter than its input |
| Csv.ParseBare | src/Honeydew/Controllers/TodosController.cs:207 | what the reader leaves after a bare field is no longer than its input |
| Csv.ParseField | src/Honeydew/Controllers/TodosController.cs:207 | what the reader leaves after a field is no longer than its input |
| Csv.ParseRecord | src/Honeydew/Controllers/TodosController.cs:207 | what the reader leaves after a line is shorter than its input |
| Csv.QuotedBodyParses | src/Honeydew/Controllers/TodosController.cs:203 | a quoted field with its quotes doubled reads back as the original text, quote for quote |
| Csv.BareParses | src/Honeydew/Controllers/TodosController.cs:207 | a bare field free of commas, quotes and line breaks reads back as itself |
| Csv.FieldParses | src/Honeydew/Controllers/TodosController.cs:203-207 | any field written reads back as itself, whatever follows it on the line |
| Csv.ParseLastField | src/Honeydew/Controllers/TodosController.cs:207 | a field before a line feed ends the line |
| Csv.ParseAfterComma | src/Honeydew/Controllers/TodosController.cs:207 | a field before a comma is followed by the fields read after the comma |
| Csv.RecordParses | src/Honeydew/Controllers/TodosController.cs:207 | a written line reads back as its fields, leaving the lines after it |
| Csv.DocumentParses | src/Honeydew/Controllers/TodosController.cs:199-209 | a written document reads back as exactly the records written, in order |
| TodosController.Clamp | src/Honeydew/Controllers/TodosController.cs:37 | `Math.Clamp`: the value when in range, else the bound it passed |
| TodosController.ClampMonotone | src/Honeydew/Controllers/TodosController.cs:37 | clamping keeps the order of values and clamping again changes nothing |
| TodosController.ClampPage | src/Honeydew/Controllers/TodosController.cs:36 | `Math.Max(1, page)`: at least 1, and a valid page is kept |
| TodosController.ListTodos | src/Honeydew/Controllers/TodosController.cs:19-52 | refused exactly for an unknown caller; otherwise the service's page for the clamped request, with page at least 1 and size 3-99, valid values kept, and no more items than the size |
| TodosController.AssignedToMe | src/Honeydew/Controllers/TodosController.cs:56-72 | refused exactly for an unknown caller; otherwise the service's list for `take` clamped to 1-20: the responses of the first that many of the caller's open todos in top-assigned order, at most 20 (at most `take` when it is in range), all open and assigned to the caller |
| TodosController.HeaderIsRecord | src/Honeydew/Controllers/TodosController.cs:200 | the header line's column names are safe to stand bare |
| TodosController.GuidIsBareSafe | src/Honeydew/Controllers/TodosController.cs:206-207 | a written Guid holds no comma, quote or line break |
| TodosController.BoolIsBareSafe | src/Honeydew/Controllers/TodosController.cs:207 | a written bool holds no comma, quote or line break |
| TodosController.DateIsBareSafe | src/Honeydew/Controllers/TodosController.cs:204-207 | a written "o" date holds no comma, quote or line break |
| TodosController.OptionalDateText | src/Honeydew/Controllers/TodosController.cs:204-205 | a nullable date is an empty field exactly when it is null |
| TodosController.OptionalGuidText | src/Honeydew/Controllers/TodosController.cs:206 | a nullable assignee is an empty field exactly when it is null |
| TodosController.RecordOf | src/Honeydew/Controllers/TodosController.cs:203-207 | eight fields: the title always quoted, the notes quoted when present and an empty field when null, the others bare |
| TodosController.CsvRecordOk | src/Honeydew/Controllers/TodosController.cs:203-207 | every todo's line can be read back |
| TodosController.CsvRecordFields | src/Honeydew/Controllers/TodosController.cs:203-207 | each field of a todo's line is its column's value, empty dates and assignee exactly when absent |
| TodosController.Row | src/Honeydew/Controllers/TodosController.cs:203-207 | the interpolated line is the todo's record written by the CSV rules |
| TodosController.RecordsInOrder | src/Honeydew/Controllers/TodosController.cs:199-208 | the header record, then one record per todo in list order |
| TodosController.RecordsOk | src/Honeydew/Controllers/TodosController.cs:199-208 | every record of the export can be read back |
| TodosController.EmptyDocument | src/Honeydew/Controllers/TodosController.cs:199-200 | with no todos the export is the header line alone |
| TodosController.DocumentGrows | src/Honeydew/Controllers/TodosController.cs:201-208 | one more todo adds its line at the end |
| TodosController.BuildCsv | src/Honeydew/Controllers/TodosController.cs:197-210 | the string-builder loop produces the header line and one line per todo in order |
| TodosController.ExportParses | src/Honeydew/Controllers/TodosController.cs:197-210 | the export reads back as the header and exactly one record per todo, in order, each title given back quote for quote |

## Left out

- Async execution, `CancellationToken`, and the check-then-act races: each
  operation is one atomic step.
- HTTP status mapping and claims parsing in the controllers. Only
  `TodosController`'s clamps, its `List`/`AssignedToMe` hand-off and
  `BuildCsv` are modelled; `Export`'s routing of "Forbid" and null results is
  left out.
- JWT signing and expiry (`JwtService`): a token is the record of its claims.
- PBKDF2, Base64 and the fixed-time comparison: `Pbkdf2(secret, salt)` is an
  injective digest, so any two distinct secrets or salts give distinct hashes.
- Hashing.HashPassword: does not model the salt as 16 random bytes in
  Base64. The salt is a non-empty parameter.
- Foreign keys and cascade deletes configured in `HoneydewDbContext`: deleting
  a user does not remove its todos, votes or preferences in the model.
- Aliasing of EF-tracked entities: an edit is a replacement of the stored row.
  The model does not capture edits made before a failed check; `UpdateAsync`
  and `UpdateCurrentUserAsync` (which trims the tracked display name at
  `UsersService.cs:166-169` before the e-mail checks at `:171-181` can fail)
  never save those, so the stored tables are the same.
- `src/Honeydew/Entities/UserRole.cs` is not part of this model. The two roles
  and their names, "Owner" and "Member", are taken from their uses.
- `UpdateCurrentUserRequest`: its shape (optional display name and e-mail)
  is taken from its uses at `UsersService.cs:157` and `UsersController.cs:63`.
- Order of ties: SQLite leaves the order of rows with equal sort keys
  unspecified, and EF adds no tie-breaker (`TodoDataAccess.cs:55-60`, `69-75`,
  `89`; `SupportTicketsDataAccess.cs:15`, `29`). The model picks one order, a
  stable sort that keeps table order, so every list is one of the orders the
  database may return. `TodoData.SuccessivePagesAdjacent` depends on that
  choice: it holds when the database orders ties the same way for both pages.
- TodoService.GetTodoPage: computes the offset as a mathematical integer
  (`TodoData.GetPage`), not with the wrap-around of the code; the code as
  written is `TodoData.GetPageAsWritten`, equal to it while the offset fits in
  an `int` (`TodoData.AsWrittenAgreesWhenNoWrap`) and different past that
  (see Findings).
- TodosController.ListTodos: hands off to `TodoService.GetTodoPage`, so it uses
  the corrected offset for the same reason.
- UsersService.ParseRole: recognises the role names only (trimmed, ignoring
  case); the numeric and comma-separated forms `Enum.TryParse` also accepts
  are not modelled.
- Strings.ToLower: lower-cases ASCII letters only; .NET's invariant culture
  also lower-cases other scripts.
- Strings.LowerChar: ASCII only, for the same reason.
- Formatting.FormatRoundTripDate: covers kind Unspecified only (no "Z" or
  offset suffix), which is the kind SQLite values are read back with.
- Seed data, migrations, the billing-plans controller, middleware and the web
  client: plumbing outside the business rules.

## Findings

| source | as written | input that shows it | evidently intended | confidence | as-written member | corrected member |
|---|---|---|---|---|---|---|
| src/Honeydew/Data/TodoDataAccess.cs:47 | `Skip((page - 1) * pageSize)` computes the offset in unchecked 32-bit `int`; the controller only bounds `page` from below, so a large page wraps to a negative offset, which SQLite reads as 0 | `page = 715827884`, `pageSize = 3`: offset 2147483649 wraps to -2147483647 and the first page is returned | a page past the end returns no items | not executed | TodoData.AsWrittenReturnsFirstPage | TodoData.CorrectedPageIsEmpty |

/**
 * `TodoService`: the todo operations as the API exposes them. Every
 * operation resolves the caller in its tenant first ("Unauthorized"). A
 * caller who may not view every todo only ever sees the todos it created;
 * a caller who may not edit every todo only edits the todos it created or
 * is assigned.
 */
module TodoService {
  import opened Wrappers
  import opened Entities
  import opened Strings
  import opened Linq
  import opened Ordering
  import Privilege
  import opened Database
  import opened UsersData
  import opened TodoData

  datatype CreateTodoRequest = CreateTodoRequest(
    title: string,
    notes: Option<string>,
    assignedToUserId: Uuid,
    dueDate: Option<DateTime>)

  datatype UpdateTodoRequest = UpdateTodoRequest(
    title: Option<string>,
    notes: Option<string>,
    assignedToUserId: Option<Uuid>,
    dueDate: Option<DateTime>,
    isDone: Option<bool>,
    completedAt: Option<DateTime>)

  datatype TodoItemResponse = TodoItemResponse(
    id: Uuid,
    title: string,
    notes: Option<string>,
    isDone: bool,
    completedAt: Option<DateTime>,
    dueDate: Option<DateTime>,
    createdAt: DateTime,
    createdByUserId: Uuid,
    assignedToUserId: Option<Uuid>,
    voteCount: int,
    currentUserVoted: bool)

  /** The arguments of `GetPageAsync` besides the caller. */
  datatype TodoPageRequest = TodoPageRequest(
    onlyMine: bool,
    includeCompleted: bool,
    assignedToUserIds: Option<seq<Uuid>>,
    search: Option<string>,
    sortBy: Option<string>,
    sortDesc: bool,
    page: Int32,
    pageSize: Int32)

  datatype TodoPage = TodoPage(items: seq<TodoItemResponse>, totalCount: int)

  const TitleRequired: string := "Title is required."
  const AssigneeNotInTenant: string := "AssignedToUserId must be a user in your tenant."

  /** `Map`: the response for one todo with its vote figures. */
  function Map(t: TodoItem, voteCount: int, currentUserVoted: bool): TodoItemResponse {
    TodoItemResponse(t.id, t.title, t.notes, t.isDone, t.completedAt, t.dueDate, t.createdAt,
      t.createdByUserId, t.assignedToUserId, voteCount, currentUserVoted)
  }

  /** `user.Role == UserRole.Owner || user.CanViewAllTodos`. */
  predicate CanViewAll(u: User) {
    u.role == Owner || u.canViewAllTodos
  }

  /**
   * The responses for a list of todos: the vote counts and the caller's own
   * votes are fetched for the whole list at once and looked up per todo.
   */
  function Respond(votes: set<TodoItemVote>, userId: Uuid, items: seq<TodoItem>): (r: seq<TodoItemResponse>)
    ensures |r| == |items|
    ensures forall i :: 0 <= i < |items| ==>
      r[i] == Map(items[i], |VotesFor(votes, items[i].id)|, TodoItemVote(items[i].id, userId) in votes)
  {
    var ids := Select(items, (t: TodoItem) => t.id);
    var counts := GetVoteCounts(votes, ids);
    var voted := GetUserVotedTodoIds(votes, userId, ids);
    var r := Select(items, (t: TodoItem) => Map(t, (if t.id in counts then counts[t.id] else 0), t.id in voted));
    forall i | 0 <= i < |items|
      ensures r[i] == Map(items[i], |VotesFor(votes, items[i].id)|, TodoItemVote(items[i].id, userId) in votes)
    {
      assert ids[i] == items[i].id;
      VoteCountOrZero(votes, ids, items[i].id);
    }
    r
  }

  /** The query `GetPageAsync` sends: a caller who may not view everything gets only its own todos. */
  function EffectiveFilter(caller: User, userId: Uuid, tenantId: Uuid, req: TodoPageRequest): (r: TodoFilter)
    ensures r.tenantId == tenantId
    ensures CreatorFilterOn(r) <==> req.onlyMine || !CanViewAll(caller)
    ensures CreatorFilterOn(r) ==> r.createdByUserId == Some(userId)
  {
    var onlyMineEffective := req.onlyMine || !CanViewAll(caller);
    TodoFilter(tenantId, if onlyMineEffective then Some(userId) else None, req.assignedToUserIds,
      onlyMineEffective, req.includeCompleted, req.search)
  }

  function EffectiveQuery(caller: User, userId: Uuid, tenantId: Uuid, req: TodoPageRequest): PageQuery {
    PageQuery(EffectiveFilter(caller, userId, tenantId, req), req.sortBy, req.sortDesc, req.page, req.pageSize)
  }

  /** `GetPageAsync`. */
  function GetTodoPage(items: seq<TodoItem>, users: seq<User>, votes: set<TodoItemVote>,
                       userId: Uuid, tenantId: Uuid, req: TodoPageRequest): (r: Result<TodoPage>)
    ensures r.Failure? <==> CurrentUser(users, userId, tenantId).None?
    ensures r.Failure? ==> r.error == "Unauthorized"
    ensures r.Success? ==>
      var caller := CurrentUser(users, userId, tenantId).value;
      var page := GetPage(items, EffectiveQuery(caller, userId, tenantId, req));
      && r.value.items == Respond(votes, userId, page.items)
      && r.value.totalCount == page.totalCount
      && |r.value.items| == |page.items|
      && (forall i :: 0 <= i < |page.items| ==> r.value.items[i].id == page.items[i].id)
      && (req.pageSize >= 0 ==> |r.value.items| <= req.pageSize)
      && (forall x :: x in r.value.items ==> exists t :: t in items && t.tenantId == tenantId && t.id == x.id)
      && (req.onlyMine || !CanViewAll(caller) ==> forall x :: x in r.value.items ==> x.createdByUserId == userId)
      && (forall x :: x in r.value.items ==> x.voteCount >= 0)
  {
    match CurrentUser(users, userId, tenantId)
    case None => Failure("Unauthorized")
    case Some(caller) =>
      var q := EffectiveQuery(caller, userId, tenantId, req);
      var page := GetPage(items, q);
      var list := Respond(votes, userId, page.items);
      ResponsesOf(votes, userId, page.items, q.filter);
      Success(TodoPage(list, page.totalCount))
  }

  /** Every response of a filtered list stands for an admitted todo. */
  lemma ResponsesOf(votes: set<TodoItemVote>, userId: Uuid, page: seq<TodoItem>, f: TodoFilter)
    requires forall t :: t in page ==> Admits(f, t)
    ensures forall x :: x in Respond(votes, userId, page) ==> exists t :: t in page && Admits(f, t) && t.id == x.id
    ensures CreatorFilterOn(f) ==> forall x :: x in Respond(votes, userId, page) ==> x.createdByUserId == f.createdByUserId.value
  {
    var r := Respond(votes, userId, page);
    forall x | x in r
      ensures exists t :: t in page && Admits(f, t) && t.id == x.id
      ensures CreatorFilterOn(f) ==> x.createdByUserId == f.createdByUserId.value
    {
      var i :| 0 <= i < |r| && r[i] == x;
      assert page[i] in page;
    }
  }

  /** `GetByIdAsync`: a caller who may not view everything sees only the todos it created. */
  function GetTodoById(items: seq<TodoItem>, users: seq<User>, votes: set<TodoItemVote>,
                       userId: Uuid, tenantId: Uuid, id: Uuid): (r: Result<TodoItemResponse>)
    ensures r.Failure? ==> r.error == "Unauthorized" || r.error == "NotFound" || r.error == "Forbid"
    ensures (r == Failure("Unauthorized")) <==> CurrentUser(users, userId, tenantId).None?
    ensures (r == Failure("NotFound")) <==> CurrentUser(users, userId, tenantId).Some? && TodoData.GetById(items, id, tenantId).None?
    ensures (r == Failure("Forbid")) <==>
      && CurrentUser(users, userId, tenantId).Some? && TodoData.GetById(items, id, tenantId).Some?
      && !CanViewAll(CurrentUser(users, userId, tenantId).value) && TodoData.GetById(items, id, tenantId).value.createdByUserId != userId
    ensures r.Success? ==>
      && r.value == Map(TodoData.GetById(items, id, tenantId).value, |VotesFor(votes, id)|, TodoItemVote(id, userId) in votes)
      && (CanViewAll(CurrentUser(users, userId, tenantId).value) || r.value.createdByUserId == userId)
  {
    match CurrentUser(users, userId, tenantId)
    case None => Failure("Unauthorized")
    case Some(caller) =>
      match TodoData.GetById(items, id, tenantId)
      case None => Failure("NotFound")
      case Some(item) =>
        if !CanViewAll(caller) && item.createdByUserId != userId then Failure("Forbid")
        else
          VoteCountOrZero(votes, [id], id);
          Success(Map(item, (if id in GetVoteCounts(votes, [id]) then GetVoteCounts(votes, [id])[id] else 0), id in GetUserVotedTodoIds(votes, userId, [id])))
  }

  /** The row `CreateAsync` stores for a request that passed every check. */
  function NewTodo(id: Uuid, tenantId: Uuid, userId: Uuid, req: CreateTodoRequest, now: DateTime): (r: TodoItem)
    requires !IsBlank(req.title)
    ensures r.title == Trim(req.title) && r.title != []
    ensures r.notes.None? <==> IsNullOrWhiteSpace(req.notes)
    ensures r.notes.Some? ==> r.notes.value == Trim(req.notes.value) && r.notes.value != []
    ensures !r.isDone && r.completedAt.None?
    ensures r.createdByUserId == userId && r.assignedToUserId == Some(req.assignedToUserId)
    ensures r.id == id && r.tenantId == tenantId && r.dueDate == req.dueDate && r.createdAt == now
  {
    TrimEmptyIffBlank(req.title);
    TrimEmptyIffBlank(req.notes.GetOr(""));
    TodoItem(id, tenantId, userId, Some(req.assignedToUserId), Trim(req.title),
      if IsNullOrWhiteSpace(req.notes) then None else Some(Trim(req.notes.value)),
      false, None, req.dueDate, now)
  }

  /** `CreateAsync`. `newId` and `now` stand for `Guid.NewGuid()` and the clock. */
  method CreateTodo(db: HoneydewDb, userId: Uuid, tenantId: Uuid, req: CreateTodoRequest, newId: Uuid, now: DateTime)
    returns (r: Result<TodoItemResponse>)
    requires db.Valid()
    requires forall t :: t in db.todoItems ==> t.id != newId
    modifies db`todoItems
    ensures db.Valid()
    ensures r.Failure? ==> db.todoItems == old(db.todoItems)
    ensures r != Failure("Forbid")
    ensures r.Failure? ==> r.error == "Unauthorized" || r.error == TitleRequired || r.error == AssigneeNotInTenant
    ensures (r == Failure("Unauthorized")) <==> CurrentUser(db.users, userId, tenantId).None?
    ensures (r == Failure(TitleRequired)) <==> CurrentUser(db.users, userId, tenantId).Some? && IsBlank(req.title)
    ensures (r == Failure(AssigneeNotInTenant)) <==>
      && CurrentUser(db.users, userId, tenantId).Some? && !IsBlank(req.title)
      && CurrentUser(db.users, req.assignedToUserId, tenantId).None?
    ensures r.Success? ==>
      && !IsBlank(req.title)
      && db.todoItems == old(db.todoItems) + [NewTodo(newId, tenantId, userId, req, now)]
      && r.value == Map(NewTodo(newId, tenantId, userId, req, now), 0, false)
  {
    var caller := CurrentUser(db.users, userId, tenantId);
    if caller.None? {
      return Failure("Unauthorized");
    }
    if !Privilege.CanCreateTodo(caller.value) {
      return Failure("Forbid");
    }
    if IsNullOrWhiteSpace(Some(req.title)) {
      return Failure(TitleRequired);
    }
    var assignee := CurrentUser(db.users, req.assignedToUserId, tenantId);
    if assignee.None? {
      return Failure(AssigneeNotInTenant);
    }
    var item := NewTodo(newId, tenantId, userId, req, now);
    var added := AddTodo(db, item);
    r := Success(Map(added, 0, false));
  }

  /**
   * The edits `UpdateAsync` makes to the tracked todo: each field the request
   * carries is set; setting `IsDone` also sets `CompletedAt`, to the supplied
   * time or else to `now` when done and to nothing when not done.
   */
  function ApplyTodoUpdate(t: TodoItem, req: UpdateTodoRequest, now: DateTime): (r: TodoItem)
    ensures r.id == t.id && r.tenantId == t.tenantId && r.createdByUserId == t.createdByUserId && r.createdAt == t.createdAt
    ensures r.title == if req.title.Some? then Trim(req.title.value) else t.title
    ensures req.notes.Some? ==> (r.notes.None? <==> IsBlank(req.notes.value))
    ensures req.notes.Some? && !IsBlank(req.notes.value) ==> r.notes == Some(Trim(req.notes.value))
    ensures req.notes.None? ==> r.notes == t.notes
    ensures r.dueDate == if req.dueDate.Some? then req.dueDate else t.dueDate
    ensures r.assignedToUserId == if req.assignedToUserId.Some? then req.assignedToUserId else t.assignedToUserId
    ensures r.isDone == req.isDone.GetOr(t.isDone)
    ensures req.completedAt.Some? ==> r.completedAt == req.completedAt
    ensures req.isDone == Some(true) && req.completedAt.None? ==> r.completedAt == Some(now)
    ensures req.isDone == Some(false) && req.completedAt.None? ==> r.completedAt.None?
    ensures req.isDone.None? && req.completedAt.None? ==> r.completedAt == t.completedAt
  {
    TodoItem(t.id, t.tenantId, t.createdByUserId,
      if req.assignedToUserId.Some? then req.assignedToUserId else t.assignedToUserId,
      if req.title.Some? then Trim(req.title.value) else t.title,
      if req.notes.Some? then (if IsNullOrWhiteSpace(req.notes) then None else Some(Trim(req.notes.value))) else t.notes,
      req.isDone.GetOr(t.isDone),
      if req.isDone.Some? then (if req.completedAt.Some? then req.completedAt else if req.isDone.value then Some(now) else None)
      else if req.completedAt.Some? then req.completedAt
      else t.completedAt,
      if req.dueDate.Some? then req.dueDate else t.dueDate,
      t.createdAt)
  }

  /** Applying an update a second time (at the same instant) changes nothing more. */
  lemma ApplyTodoUpdateIdempotent(t: TodoItem, req: UpdateTodoRequest, now: DateTime)
    ensures ApplyTodoUpdate(ApplyTodoUpdate(t, req, now), req, now) == ApplyTodoUpdate(t, req, now)
  {
    var once := ApplyTodoUpdate(t, req, now);
    var twice := ApplyTodoUpdate(once, req, now);
    if req.title.Some? {
      TrimIdempotent(req.title.value);
    }
    if req.notes.Some? {
      TrimIdempotent(req.notes.value);
    }
    assert twice.title == once.title;
    assert twice.notes == once.notes;
  }

  /** An update that carries no field leaves the todo as it was. */
  lemma EmptyTodoUpdate(t: TodoItem, now: DateTime)
    ensures ApplyTodoUpdate(t, UpdateTodoRequest(None, None, None, None, None, None), now) == t
  {
  }

  /**
   * Unlike creation, an update does not check the title: a blank title is
   * stored as the empty string.
   */
  lemma UpdateMayBlankTitle(t: TodoItem, now: DateTime)
    ensures ApplyTodoUpdate(t, UpdateTodoRequest(Some(" "), None, None, None, None, None), now).title == []
  {
    assert IsWhiteSpace(' ');
    TrimEmptyIffBlank(" ");
  }

  /** A completion time without `IsDone` is stored even on a todo that is not done. */
  lemma CompletedAtWithoutIsDone(t: TodoItem, at: DateTime, now: DateTime)
    requires !t.isDone
    ensures var r := ApplyTodoUpdate(t, UpdateTodoRequest(None, None, None, None, None, Some(at)), now);
      !r.isDone && r.completedAt == Some(at)
  {
  }

  /** Who may edit `item`: an editor of every todo, its creator, or its current assignee. */
  predicate MayEdit(caller: User, userId: Uuid, item: TodoItem) {
    Privilege.CanEditTodo(caller) || item.createdByUserId == userId || item.assignedToUserId == Some(userId)
  }

  /** The refusals of `UpdateAsync` are told apart by their lengths. */
  lemma UpdateErrorsDiffer()
    ensures "Unauthorized" != "NotFound" && "Unauthorized" != "Forbid" && "NotFound" != "Forbid"
    ensures AssigneeNotInTenant != "Unauthorized" && AssigneeNotInTenant != "NotFound" && AssigneeNotInTenant != "Forbid"
  {
    assert |AssigneeNotInTenant| == 47;
    assert |"Unauthorized"| == 12 && |"NotFound"| == 8 && |"Forbid"| == 6;
  }

  /** The checks `UpdateAsync` makes before it saves anything, in their order. */
  function UpdateTodoError(users: seq<User>, items: seq<TodoItem>, userId: Uuid, tenantId: Uuid, id: Uuid, req: UpdateTodoRequest)
    : (r: Option<string>)
    ensures r == Some("Unauthorized") <==> CurrentUser(users, userId, tenantId).None?
    ensures r == Some("NotFound") <==>
      CurrentUser(users, userId, tenantId).Some? && TodoData.GetById(items, id, tenantId).None?
    ensures r == Some("Forbid") <==>
      && CurrentUser(users, userId, tenantId).Some? && TodoData.GetById(items, id, tenantId).Some?
      && !MayEdit(CurrentUser(users, userId, tenantId).value, userId, TodoData.GetById(items, id, tenantId).value)
    ensures r == Some(AssigneeNotInTenant) <==>
      && CurrentUser(users, userId, tenantId).Some? && TodoData.GetById(items, id, tenantId).Some?
      && MayEdit(CurrentUser(users, userId, tenantId).value, userId, TodoData.GetById(items, id, tenantId).value)
      && req.assignedToUserId.Some? && CurrentUser(users, req.assignedToUserId.value, tenantId).None?
    ensures r.None? ==>
      && CurrentUser(users, userId, tenantId).Some? && TodoData.GetById(items, id, tenantId).Some?
      && MayEdit(CurrentUser(users, userId, tenantId).value, userId, TodoData.GetById(items, id, tenantId).value)
      && (req.assignedToUserId.Some? ==> CurrentUser(users, req.assignedToUserId.value, tenantId).Some?)
  {
    UpdateErrorsDiffer();
    var caller := CurrentUser(users, userId, tenantId);
    var item := TodoData.GetById(items, id, tenantId);
    if caller.None? then Some("Unauthorized")
    else if item.None? then Some("NotFound")
    else
      var canEditAll := caller.value.role == Owner || caller.value.canEditAllTodos;
      var isOwnTodo := item.value.createdByUserId == userId || item.value.assignedToUserId == Some(userId);
      if !canEditAll && !isOwnTodo then Some("Forbid")
      else if req.assignedToUserId.Some? && CurrentUser(users, req.assignedToUserId.value, tenantId).None? then
        Some(AssigneeNotInTenant)
      else None
  }

  /** `UpdateAsync`: nothing is saved when the request is refused. */
  method UpdateTodo(db: HoneydewDb, userId: Uuid, tenantId: Uuid, id: Uuid, req: UpdateTodoRequest, now: DateTime)
    returns (r: Result<TodoItemResponse>)
    requires db.Valid()
    modifies db`todoItems
    ensures db.Valid()
    ensures r.Failure? <==> UpdateTodoError(db.users, old(db.todoItems), userId, tenantId, id, req).Some?
    ensures r.Failure? ==>
      && r.error == UpdateTodoError(db.users, old(db.todoItems), userId, tenantId, id, req).value
      && db.todoItems == old(db.todoItems)
    ensures r.Success? ==>
      var updated := ApplyTodoUpdate(TodoData.GetById(old(db.todoItems), id, tenantId).value, req, now);
      && db.todoItems == ReplaceTodo(old(db.todoItems), updated)
      && TodoData.GetById(db.todoItems, id, tenantId) == Some(updated)
      && r.value == Map(updated, |VotesFor(db.todoItemVotes, id)|, TodoItemVote(id, userId) in db.todoItemVotes)
  {
    var error := UpdateTodoError(db.users, db.todoItems, userId, tenantId, id, req);
    if error.Some? {
      return Failure(error.value);
    }
    var item := TodoData.GetById(db.todoItems, id, tenantId);
    var updated := ApplyTodoUpdate(item.value, req, now);
    var k :| 0 <= k < |db.todoItems| && db.todoItems[k] == item.value;
    ReplaceTodoFinds(db.todoItems, k, updated);
    SaveTodo(db, updated);
    r := Success(Respond(db.todoItemVotes, userId, [updated])[0]);
  }

  /** `GetAllForExportAsync`: exporting everything needs the view-all capability. */
  function ExportTodos(items: seq<TodoItem>, users: seq<User>, userId: Uuid, tenantId: Uuid, onlyMine: bool)
    : (r: Result<seq<TodoItemResponse>>)
    ensures r.Failure? ==> r.error == "Unauthorized" || r.error == "Forbid"
    ensures (r == Failure("Unauthorized")) <==> CurrentUser(users, userId, tenantId).None?
    ensures (r == Failure("Forbid")) <==>
      CurrentUser(users, userId, tenantId).Some? && !onlyMine && !CanViewAll(CurrentUser(users, userId, tenantId).value)
    ensures r.Success? ==> r.value == ExportRows(items, tenantId, onlyMine, userId)
  {
    match CurrentUser(users, userId, tenantId)
    case None => Failure("Unauthorized")
    case Some(caller) =>
      if !onlyMine && !CanViewAll(caller) then Failure("Forbid")
      else Success(ExportRows(items, tenantId, onlyMine, userId))
  }

  /** The exported todos, newest first, with no vote data: the tenant's, or only the caller's own. */
  function ExportRows(items: seq<TodoItem>, tenantId: Uuid, onlyMine: bool, userId: Uuid): (r: seq<TodoItemResponse>)
    ensures r == Select(GetAllForExport(items, tenantId, onlyMine, Some(userId)), Unvoted)
    ensures forall t :: t in items && ExportAdmits(t, tenantId, onlyMine, Some(userId)) ==> Unvoted(t) in r
    ensures forall x :: x in r ==> exists t :: t in items && t.tenantId == tenantId && x == Unvoted(t)
    ensures onlyMine ==> forall x :: x in r ==> x.createdByUserId == userId
    ensures forall i, j :: 0 <= i < j < |r| ==> r[i].createdAt >= r[j].createdAt
  {
    var rows := GetAllForExport(items, tenantId, onlyMine, Some(userId));
    ExportRowsCover(items, tenantId, onlyMine, userId, rows);
    ExportRowsFromTenant(items, tenantId, onlyMine, userId, rows);
    ExportRowsOwn(items, tenantId, onlyMine, userId, rows);
    Select(rows, Unvoted)
  }

  /** Every admitted todo is exported ... */
  lemma ExportRowsCover(items: seq<TodoItem>, tenantId: Uuid, onlyMine: bool, userId: Uuid, rows: seq<TodoItem>)
    requires rows == GetAllForExport(items, tenantId, onlyMine, Some(userId))
    ensures forall t :: t in items && ExportAdmits(t, tenantId, onlyMine, Some(userId)) ==> Unvoted(t) in Select(rows, Unvoted)
  {
    SelectMembers(rows, Unvoted);
  }

  /** ... every exported row is a todo of the tenant ... */
  lemma ExportRowsFromTenant(items: seq<TodoItem>, tenantId: Uuid, onlyMine: bool, userId: Uuid, rows: seq<TodoItem>)
    requires rows == GetAllForExport(items, tenantId, onlyMine, Some(userId))
    ensures forall x :: x in Select(rows, Unvoted) ==> exists t :: t in items && t.tenantId == tenantId && x == Unvoted(t)
  {
    SelectMembers(rows, Unvoted);
  }

  /** ... and, for "only mine", one the caller created. */
  lemma ExportRowsOwn(items: seq<TodoItem>, tenantId: Uuid, onlyMine: bool, userId: Uuid, rows: seq<TodoItem>)
    requires rows == GetAllForExport(items, tenantId, onlyMine, Some(userId))
    ensures onlyMine ==> forall x :: x in Select(rows, Unvoted) ==> x.createdByUserId == userId
  {
    SelectMembers(rows, Unvoted);
  }

  /** An exported todo: mapped with no votes and not voted by the caller. */
  function Unvoted(t: TodoItem): TodoItemResponse {
    Map(t, 0, false)
  }

  /** `GetTopAssignedToMeAsync`. */
  function TopAssignedToMe(items: seq<TodoItem>, users: seq<User>, votes: set<TodoItemVote>,
                           userId: Uuid, tenantId: Uuid, take: Int32): (r: Result<seq<TodoItemResponse>>)
    ensures r.Failure? <==> CurrentUser(users, userId, tenantId).None?
    ensures r.Failure? ==> r.error == "Unauthorized"
    ensures r.Success? ==>
      && r.value == Respond(votes, userId, GetTopAssignedToUser(items, tenantId, userId, take))
      && (take >= 0 ==> |r.value| <= take)
      && (forall x :: x in r.value ==> !x.isDone && x.assignedToUserId == Some(userId))
      && (forall x :: x in r.value ==> x.voteCount == |VotesFor(votes, x.id)|)
  {
    match CurrentUser(users, userId, tenantId)
    case None => Failure("Unauthorized")
    case Some(_) =>
      var top := GetTopAssignedToUser(items, tenantId, userId, take);
      var list := Respond(votes, userId, top);
      forall x | x in list
        ensures !x.isDone && x.assignedToUserId == Some(userId) && x.voteCount == |VotesFor(votes, x.id)|
      {
        var i :| 0 <= i < |list| && list[i] == x;
        assert top[i] in top;
      }
      Success(list)
  }

  /** `ToggleVoteAsync`. */
  method ToggleTodoVote(db: HoneydewDb, userId: Uuid, tenantId: Uuid, todoId: Uuid) returns (r: Result<bool>)
    requires db.Valid()
    modifies db`todoItemVotes
    ensures db.Valid()
    ensures r.Failure? ==> r.error == "Unauthorized"
    ensures (r == Failure("Unauthorized")) <==> CurrentUser(db.users, userId, tenantId).None?
    ensures r.Failure? || TodoData.GetById(db.todoItems, todoId, tenantId).None? ==> db.todoItemVotes == old(db.todoItemVotes)
    ensures r.Success? && TodoData.GetById(db.todoItems, todoId, tenantId).Some? ==>
      && (r.value <==> TodoItemVote(todoId, userId) !in old(db.todoItemVotes))
      && db.todoItemVotes == Toggled(old(db.todoItemVotes), TodoItemVote(todoId, userId))
    ensures r.Success? && TodoData.GetById(db.todoItems, todoId, tenantId).None? ==> !r.value
  {
    var caller := CurrentUser(db.users, userId, tenantId);
    if caller.None? {
      return Failure("Unauthorized");
    }
    var voted := ToggleVote(db, todoId, userId, tenantId);
    r := Success(voted);
  }
}

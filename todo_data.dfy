/**
 * `TodoDataAccess`: the todo queries (a filter pipeline, a sort and a
 * 1-indexed page), the top-assigned list, the export list, the vote lookups
 * and the two writes (add a todo, toggle a vote).
 */
module TodoData {
  import opened Wrappers
  import opened Entities
  import opened Linq
  import opened Strings
  import opened Ordering
  import opened Database

  /** The filtering arguments of `GetPageAsync`. */
  datatype TodoFilter = TodoFilter(
    tenantId: Uuid,
    createdByUserId: Option<Uuid>,
    assignedToUserIds: Option<seq<Uuid>>,
    onlyMine: bool,
    includeCompleted: bool,
    search: Option<string>)

  /** All the arguments of `GetPageAsync`. */
  datatype PageQuery = PageQuery(
    filter: TodoFilter,
    sortBy: Option<string>,
    sortDesc: bool,
    page: Int32,
    pageSize: Int32)

  datatype PageResult = PageResult(items: seq<TodoItem>, totalCount: int)

  // ---------------------------------------------------------------- filters

  /** The term a non-blank search looks for: trimmed and lower-cased. */
  function SearchTerm(search: Option<string>): Option<string> {
    if IsNullOrWhiteSpace(search) then None else Some(ToLower(Trim(search.value)))
  }

  predicate MatchesSearch(t: TodoItem, term: string) {
    Contains(ToLower(t.title), term) || (t.notes.Some? && Contains(ToLower(t.notes.value), term))
  }

  predicate CreatorFilterOn(f: TodoFilter) {
    f.onlyMine && f.createdByUserId.Some?
  }

  predicate AssigneeFilterOn(f: TodoFilter) {
    f.assignedToUserIds.Some? && |f.assignedToUserIds.value| > 0
  }

  /** Does the query select `t`? The conjunction of every filter the pipeline may apply. */
  predicate Admits(f: TodoFilter, t: TodoItem) {
    && t.tenantId == f.tenantId
    && (CreatorFilterOn(f) ==> t.createdByUserId == f.createdByUserId.value)
    && (AssigneeFilterOn(f) ==> t.assignedToUserId.Some? && t.assignedToUserId.value in f.assignedToUserIds.value)
    && (!f.includeCompleted ==> !t.isDone)
    && (SearchTerm(f.search).Some? ==> MatchesSearch(t, SearchTerm(f.search).value))
  }

  /** The `query = query.Where(...)` chain of `GetPageAsync`, one stage per filter. */
  function Filtered(items: seq<TodoItem>, f: TodoFilter): (r: seq<TodoItem>)
    ensures forall t :: t in r <==> t in items && Admits(f, t)
  {
    var byTenant := Where(items, (t: TodoItem) => t.tenantId == f.tenantId);
    var byCreator :=
      if CreatorFilterOn(f) then Where(byTenant, (t: TodoItem) => t.createdByUserId == f.createdByUserId.value)
      else byTenant;
    var byAssignee :=
      if AssigneeFilterOn(f)
      then Where(byCreator, (t: TodoItem) => t.assignedToUserId.Some? && t.assignedToUserId.value in f.assignedToUserIds.value)
      else byCreator;
    var open := if !f.includeCompleted then Where(byAssignee, (t: TodoItem) => !t.isDone) else byAssignee;
    match SearchTerm(f.search)
    case None => open
    case Some(term) => Where(open, (t: TodoItem) => MatchesSearch(t, term))
  }

  /** The pipeline keeps the table order: it is one `Where` by `Admits`. */
  lemma FilteredIsOneWhere(items: seq<TodoItem>, f: TodoFilter)
    ensures Filtered(items, f) == Where(items, (t: TodoItem) => Admits(f, t))
  {
    var p1 := (t: TodoItem) => t.tenantId == f.tenantId;
    var a2 := (t: TodoItem) => p1(t) && (CreatorFilterOn(f) ==> t.createdByUserId == f.createdByUserId.value);
    var a3 := (t: TodoItem) => a2(t) &&
      (AssigneeFilterOn(f) ==> t.assignedToUserId.Some? && t.assignedToUserId.value in f.assignedToUserIds.value);
    var a4 := (t: TodoItem) => a3(t) && (!f.includeCompleted ==> !t.isDone);
    var a5 := (t: TodoItem) => Admits(f, t);
    var s1 := Where(items, p1);
    var s2 := if CreatorFilterOn(f) then Where(s1, (t: TodoItem) => t.createdByUserId == f.createdByUserId.value) else s1;
    if CreatorFilterOn(f) {
      WhereWhere(items, p1, (t: TodoItem) => t.createdByUserId == f.createdByUserId.value, a2);
    } else {
      WhereExt(items, p1, a2);
    }
    var s3 :=
      if AssigneeFilterOn(f)
      then Where(s2, (t: TodoItem) => t.assignedToUserId.Some? && t.assignedToUserId.value in f.assignedToUserIds.value)
      else s2;
    if AssigneeFilterOn(f) {
      WhereWhere(items, a2, (t: TodoItem) => t.assignedToUserId.Some? && t.assignedToUserId.value in f.assignedToUserIds.value, a3);
    } else {
      WhereExt(items, a2, a3);
    }
    var s4 := if !f.includeCompleted then Where(s3, (t: TodoItem) => !t.isDone) else s3;
    if !f.includeCompleted {
      WhereWhere(items, a3, (t: TodoItem) => !t.isDone, a4);
    } else {
      WhereExt(items, a3, a4);
    }
    match SearchTerm(f.search)
    case None =>
      WhereExt(items, a4, a5);
    case Some(term) =>
      WhereWhere(items, a4, (t: TodoItem) => MatchesSearch(t, term), a5);
  }

  // ---------------------------------------------------------------- sorting

  /** `OrderBy(t => t.DueDate == null).ThenBy(t => t.DueDate)`. */
  function DueAscKey(t: TodoItem): seq<int> {
    [BoolKey(t.dueDate.None?), t.dueDate.GetOr(0)]
  }

  /** `OrderByDescending(t => t.DueDate == null).ThenByDescending(t => t.DueDate)`. */
  function DueDescKey(t: TodoItem): seq<int> {
    [-BoolKey(t.dueDate.None?), -(t.dueDate.GetOr(0) as int)]
  }

  /** `OrderBy(t => t.CompletedAt)`; SQLite sorts NULL before every value. */
  function CompletedAscKey(t: TodoItem): seq<int> {
    [BoolKey(t.completedAt.Some?), t.completedAt.GetOr(0)]
  }

  /** `OrderByDescending(t => t.CompletedAt)`. */
  function CompletedDescKey(t: TodoItem): seq<int> {
    [-BoolKey(t.completedAt.Some?), -(t.completedAt.GetOr(0) as int)]
  }

  /** `OrderByDescending(t => t.CreatedAt)`. */
  function CreatedDescKey(t: TodoItem): seq<int> {
    [0, -(t.createdAt as int)]
  }

  /** The sort `ApplySort` selects from `sortBy?.ToLowerInvariant()`. */
  function SortKey(sortBy: Option<string>, sortDesc: bool): TodoItem -> seq<int> {
    var k := if sortBy.None? then None else Some(ToLower(sortBy.value));
    if k == Some("duedate") then (if sortDesc then DueDescKey else DueAscKey)
    else if k == Some("completedat") || k == Some("donedate") then (if sortDesc then CompletedDescKey else CompletedAscKey)
    else (if sortDesc then CreatedDescKey else CreatedDescKey)
  }

  function ApplySort(items: seq<TodoItem>, sortBy: Option<string>, sortDesc: bool): (r: seq<TodoItem>)
    ensures multiset(r) == multiset(items) && |r| == |items|
    ensures forall t :: t in r <==> t in items
    ensures SortedBy(r, SortKey(sortBy, sortDesc))
  {
    SortBySorted(items, SortKey(sortBy, sortDesc));
    SortBy(items, SortKey(sortBy, sortDesc))
  }

  lemma Lex2(a0: int, a1: int, b0: int, b1: int)
    ensures LexLe([a0, a1], [b0, b1]) <==> a0 < b0 || (a0 == b0 && a1 <= b1)
  {
    assert LexLe([a1], [b1]) <==> a1 <= b1 by {
      assert [a1][1..] == [] && [b1][1..] == [];
      assert LexLe([], []);
    }
    assert [a0, a1][1..] == [a1];
    assert [b0, b1][1..] == [b1];
  }

  lemma Lex3(a0: int, a1: int, a2: int, b0: int, b1: int, b2: int)
    ensures LexLe([a0, a1, a2], [b0, b1, b2]) <==> a0 < b0 || (a0 == b0 && (a1 < b1 || (a1 == b1 && a2 <= b2)))
  {
    assert [a0, a1, a2][1..] == [a1, a2];
    assert [b0, b1, b2][1..] == [b1, b2];
    Lex2(a1, a2, b1, b2);
  }

  predicate IsKey(sortBy: Option<string>, name: string) {
    sortBy.Some? && ToLower(sortBy.value) == name
  }

  /** Without a recognised key the order is newest-created first, and `sortDesc` is ignored. */
  lemma DefaultSortNewestFirst(items: seq<TodoItem>, sortBy: Option<string>, sortDesc: bool)
    requires !IsKey(sortBy, "duedate") && !IsKey(sortBy, "completedat") && !IsKey(sortBy, "donedate")
    ensures ApplySort(items, sortBy, sortDesc) == ApplySort(items, sortBy, !sortDesc)
    ensures var r := ApplySort(items, sortBy, sortDesc);
      forall i, j :: 0 <= i < j < |r| ==> r[i].createdAt >= r[j].createdAt
  {
    assert SortKey(sortBy, sortDesc) == CreatedDescKey == SortKey(sortBy, !sortDesc);
    var r := ApplySort(items, sortBy, sortDesc);
    forall i, j | 0 <= i < j < |r|
      ensures r[i].createdAt >= r[j].createdAt
    {
      Lex2(0, -(r[i].createdAt as int), 0, -(r[j].createdAt as int));
    }
  }

  /** Ascending due date: dated items first, by due date; undated items last. */
  lemma DueDateAscending(items: seq<TodoItem>, sortBy: Option<string>)
    requires IsKey(sortBy, "duedate")
    ensures var r := ApplySort(items, sortBy, false);
      forall i, j :: 0 <= i < j < |r| ==>
        (r[i].dueDate.None? ==> r[j].dueDate.None?) &&
        (r[i].dueDate.Some? && r[j].dueDate.Some? ==> r[i].dueDate.value <= r[j].dueDate.value)
  {
    var r := ApplySort(items, sortBy, false);
    forall i, j | 0 <= i < j < |r|
      ensures r[i].dueDate.None? ==> r[j].dueDate.None?
      ensures r[i].dueDate.Some? && r[j].dueDate.Some? ==> r[i].dueDate.value <= r[j].dueDate.value
    {
      Lex2(BoolKey(r[i].dueDate.None?), r[i].dueDate.GetOr(0), BoolKey(r[j].dueDate.None?), r[j].dueDate.GetOr(0));
    }
  }

  /** Descending due date puts the undated items FIRST, then the latest due date first. */
  lemma DueDateDescending(items: seq<TodoItem>, sortBy: Option<string>)
    requires IsKey(sortBy, "duedate")
    ensures var r := ApplySort(items, sortBy, true);
      forall i, j :: 0 <= i < j < |r| ==>
        (r[j].dueDate.None? ==> r[i].dueDate.None?) &&
        (r[i].dueDate.Some? && r[j].dueDate.Some? ==> r[i].dueDate.value >= r[j].dueDate.value)
  {
    var r := ApplySort(items, sortBy, true);
    forall i, j | 0 <= i < j < |r|
      ensures r[j].dueDate.None? ==> r[i].dueDate.None?
      ensures r[i].dueDate.Some? && r[j].dueDate.Some? ==> r[i].dueDate.value >= r[j].dueDate.value
    {
      Lex2(-BoolKey(r[i].dueDate.None?), -(r[i].dueDate.GetOr(0) as int), -BoolKey(r[j].dueDate.None?), -(r[j].dueDate.GetOr(0) as int));
    }
  }

  /** Completion date (as "completedat" or "donedate"): uncompleted first ascending, last descending. */
  lemma CompletedAtOrder(items: seq<TodoItem>, sortBy: Option<string>, sortDesc: bool)
    requires IsKey(sortBy, "completedat") || IsKey(sortBy, "donedate")
    ensures var r := ApplySort(items, sortBy, sortDesc);
      forall i, j :: 0 <= i < j < |r| ==>
        (if sortDesc
         then (r[j].completedAt.Some? ==> r[i].completedAt.Some?) &&
              (r[i].completedAt.Some? && r[j].completedAt.Some? ==> r[i].completedAt.value >= r[j].completedAt.value)
         else (r[i].completedAt.Some? ==> r[j].completedAt.Some?) &&
              (r[i].completedAt.Some? && r[j].completedAt.Some? ==> r[i].completedAt.value <= r[j].completedAt.value))
  {
    var r := ApplySort(items, sortBy, sortDesc);
    forall i, j | 0 <= i < j < |r|
      ensures if sortDesc
         then (r[j].completedAt.Some? ==> r[i].completedAt.Some?) &&
              (r[i].completedAt.Some? && r[j].completedAt.Some? ==> r[i].completedAt.value >= r[j].completedAt.value)
         else (r[i].completedAt.Some? ==> r[j].completedAt.Some?) &&
              (r[i].completedAt.Some? && r[j].completedAt.Some? ==> r[i].completedAt.value <= r[j].completedAt.value)
    {
      if sortDesc {
        Lex2(-BoolKey(r[i].completedAt.Some?), -(r[i].completedAt.GetOr(0) as int), -BoolKey(r[j].completedAt.Some?), -(r[j].completedAt.GetOr(0) as int));
      } else {
        Lex2(BoolKey(r[i].completedAt.Some?), r[i].completedAt.GetOr(0), BoolKey(r[j].completedAt.Some?), r[j].completedAt.GetOr(0));
      }
    }
  }

  // ---------------------------------------------------------------- paging

  /**
   * `a * b` as repeated addition. The recursive definition keeps the product
   * out of the solver's nonlinear arithmetic; `TimesIsProduct` relates the two.
   */
  function Times(a: int, b: int): int
    decreases if b < 0 then -b else b
  {
    if b == 0 then 0 else if b > 0 then Times(a, b - 1) + a else Times(a, b + 1) - a
  }

  lemma {:induction false} TimesIsProduct(a: int, b: int)
    ensures Times(a, b) == a * b
    decreases if b < 0 then -b else b
  {
    if b > 0 {
      TimesIsProduct(a, b - 1);
    } else if b < 0 {
      TimesIsProduct(a, b + 1);
    }
  }

  /** The number of items `GetPageAsync` skips: `(page - 1) * pageSize`, as a mathematical integer. */
  function PageOffset(page: Int32, pageSize: Int32): (r: int)
    ensures page >= 1 && pageSize >= 0 ==> r >= 0
  {
    TimesIsProduct(page - 1, pageSize);
    NonNegativeProduct(page - 1, pageSize);
    Times(page - 1, pageSize)
  }

  /** The same expression in unchecked C# `int` arithmetic, as the code evaluates it. */
  function PageOffsetAsWritten(page: Int32, pageSize: Int32): Int32 {
    Wrap32(Times(Wrap32(page - 1), pageSize))
  }

  /** The first index of a page: SQLite's OFFSET, a negative one counting as zero. */
  function PageStart(n: nat, offset: int): (r: nat)
    ensures r <= n
  {
    if offset <= 0 then 0 else if offset >= n then n else offset
  }

  /** The end of a page: SQLite's LIMIT, a negative one putting no bound. */
  function PageEnd(n: nat, offset: int, pageSize: Int32): (r: nat)
    ensures PageStart(n, offset) <= r <= n
  {
    var lo := PageStart(n, offset);
    if pageSize < 0 || lo + pageSize >= n then n else lo + pageSize
  }

  /** One page of `sorted`: the run from the SQLite offset to the SQLite limit. */
  function PageOf(sorted: seq<TodoItem>, offset: int, pageSize: Int32): (r: seq<TodoItem>)
    ensures forall t :: t in r ==> t in sorted
    ensures pageSize >= 0 ==> |r| <= pageSize
  {
    sorted[PageStart(|sorted|, offset)..PageEnd(|sorted|, offset, pageSize)]
  }

  /** `PageOf` is `query.Skip(offset).Take(pageSize)` under SQLite's OFFSET/LIMIT reading. */
  lemma PageOfIsSkipTake(sorted: seq<TodoItem>, offset: int, pageSize: Int32)
    ensures PageOf(sorted, offset, pageSize) == Take(Skip(sorted, offset), pageSize)
  {
    var r, t := PageOf(sorted, offset, pageSize), Take(Skip(sorted, offset), pageSize);
    assert |r| == |t|;
    forall i | 0 <= i < |r|
      ensures r[i] == t[i]
    {
    }
  }

  /** The filtered items in the requested order. */
  function SortedMatches(items: seq<TodoItem>, f: TodoFilter, sortBy: Option<string>, sortDesc: bool): (r: seq<TodoItem>)
    ensures |r| == |Where(items, (t: TodoItem) => Admits(f, t))|
    ensures multiset(r) == multiset(Where(items, (t: TodoItem) => Admits(f, t)))
    ensures forall t :: t in r <==> t in items && Admits(f, t)
    ensures SortedBy(r, SortKey(sortBy, sortDesc))
  {
    FilteredIsOneWhere(items, f);
    ApplySort(Filtered(items, f), sortBy, sortDesc)
  }

  /** `GetPageAsync`, with the offset computed without overflow. */
  function GetPage(items: seq<TodoItem>, q: PageQuery): (r: PageResult)
    ensures forall t :: t in r.items ==> t in items && Admits(q.filter, t)
    ensures q.pageSize >= 0 ==> |r.items| <= q.pageSize
    ensures r.totalCount == |Where(items, (t: TodoItem) => Admits(q.filter, t))|
  {
    var sorted := SortedMatches(items, q.filter, q.sortBy, q.sortDesc);
    PageResult(PageOf(sorted, PageOffset(q.page, q.pageSize), q.pageSize), |sorted|)
  }

  /** `GetPageAsync` as written: the offset wraps around in 32-bit arithmetic. */
  function GetPageAsWritten(items: seq<TodoItem>, q: PageQuery): (r: PageResult)
    ensures forall t :: t in r.items ==> t in items && Admits(q.filter, t)
    ensures q.pageSize >= 0 ==> |r.items| <= q.pageSize
    ensures r.totalCount == GetPage(items, q).totalCount
  {
    var sorted := SortedMatches(items, q.filter, q.sortBy, q.sortDesc);
    PageResult(PageOf(sorted, PageOffsetAsWritten(q.page, q.pageSize), q.pageSize), |sorted|)
  }

  /** A page is the run of the sorted, filtered items that starts at `(page - 1) * pageSize`. */
  lemma GetPageIsSlice(items: seq<TodoItem>, q: PageQuery)
    requires q.page >= 1 && q.pageSize >= 0
    ensures var sorted, off, page := SortedMatches(items, q.filter, q.sortBy, q.sortDesc), PageOffset(q.page, q.pageSize),
      GetPage(items, q).items;
      off <= |sorted| ==>
        && |page| == (if off + q.pageSize <= |sorted| then q.pageSize as int else |sorted| - off)
        && forall i :: 0 <= i < |page| ==> page[i] == sorted[off + i]
  {
    PageIsSlice(SortedMatches(items, q.filter, q.sortBy, q.sortDesc), PageOffset(q.page, q.pageSize), q.pageSize,
      GetPage(items, q).items);
  }

  /** A page that starts past the last match is empty. */
  lemma GetPagePastEnd(items: seq<TodoItem>, q: PageQuery)
    requires q.page >= 1 && q.pageSize >= 0
    requires PageOffset(q.page, q.pageSize) >= |SortedMatches(items, q.filter, q.sortBy, q.sortDesc)|
    ensures GetPage(items, q).items == []
  {
    PageIsSlice(SortedMatches(items, q.filter, q.sortBy, q.sortDesc), PageOffset(q.page, q.pageSize), q.pageSize,
      GetPage(items, q).items);
  }

  lemma PageIsSlice(sorted: seq<TodoItem>, off: int, pageSize: Int32, page: seq<TodoItem>)
    requires off >= 0 && pageSize >= 0 && page == PageOf(sorted, off, pageSize)
    ensures off <= |sorted| ==>
      && |page| == (if off + pageSize <= |sorted| then pageSize as int else |sorted| - off)
      && forall i :: 0 <= i < |page| ==> page[i] == sorted[off + i]
    ensures off >= |sorted| ==> page == []
  {
    PageOfSlice(sorted, off, pageSize);
  }

  /** Without a negative offset or limit, a page is a plain slice. */
  lemma PageOfSlice(sorted: seq<TodoItem>, off: int, pageSize: Int32)
    requires off >= 0 && pageSize >= 0
    ensures off <= |sorted| ==> PageOf(sorted, off, pageSize) == sorted[off..if off + pageSize <= |sorted| then off + pageSize else |sorted|]
    ensures off >= |sorted| ==> PageOf(sorted, off, pageSize) == []
  {
  }

  lemma NonNegativeProduct(a: int, b: int)
    ensures a >= 0 && b >= 0 ==> a * b >= 0
  {
  }

  /** The next page starts one page size further on. */
  lemma PageOffsetNext(page: Int32, next: Int32, pageSize: Int32)
    requires next == page + 1
    ensures PageOffset(next, pageSize) == PageOffset(page, pageSize) + pageSize
  {
    TimesIsProduct(next - 1, pageSize);
    TimesIsProduct(page - 1, pageSize);
    assert (next - 1) * pageSize == (page - 1) * pageSize + pageSize;
  }

  /** Every page is in the requested order. */
  lemma GetPageSorted(items: seq<TodoItem>, q: PageQuery)
    ensures SortedBy(GetPage(items, q).items, SortKey(q.sortBy, q.sortDesc))
  {
    var sorted := SortedMatches(items, q.filter, q.sortBy, q.sortDesc);
    var lo := PageStart(|sorted|, PageOffset(q.page, q.pageSize));
    var hi := PageEnd(|sorted|, PageOffset(q.page, q.pageSize), q.pageSize);
    SortedSlice(sorted, SortKey(q.sortBy, q.sortDesc), lo, hi);
  }

  /**
   * Two successive full pages of one ordering are adjacent runs of it. With
   * the same filters and sort, `GetPage` takes both from the same
   * `SortedMatches`, which does not depend on the page.
   */
  lemma SuccessivePagesAdjacent(sorted: seq<TodoItem>, page: Int32, next: Int32, pageSize: Int32)
    requires page >= 1 && pageSize >= 0 && next == page + 1
    requires PageOffset(page, pageSize) + 2 * pageSize <= |sorted|
    ensures PageOf(sorted, PageOffset(page, pageSize), pageSize) + PageOf(sorted, PageOffset(next, pageSize), pageSize) ==
      sorted[PageOffset(page, pageSize)..PageOffset(page, pageSize) + 2 * pageSize]
  {
    var off := PageOffset(page, pageSize);
    PageOffsetNext(page, next, pageSize);
    PageOfSlice(sorted, off, pageSize);
    PageOfSlice(sorted, off + pageSize, pageSize);
    SliceConcat(PageOf(sorted, off, pageSize), PageOf(sorted, off + pageSize, pageSize), sorted, off, off + pageSize, off + 2 * pageSize);
  }

  lemma SliceConcat<T>(first: seq<T>, second: seq<T>, s: seq<T>, a: nat, b: nat, c: nat)
    requires a <= b <= c <= |s| && first == s[a..b] && second == s[b..c]
    ensures first + second == s[a..c]
  {
  }

  /** `totalCount` counts every match, whichever page is asked for. */
  lemma TotalCountIgnoresPage(items: seq<TodoItem>, q: PageQuery, page: Int32, pageSize: Int32)
    ensures GetPage(items, q.(page := page, pageSize := pageSize)).totalCount == GetPage(items, q).totalCount
  {
  }

  /** While `page - 1` and `(page - 1) * pageSize` fit in an `int`, the code as written gives the corrected page. */
  lemma AsWrittenAgreesWhenNoWrap(items: seq<TodoItem>, q: PageQuery)
    requires -0x8000_0000 <= q.page - 1
    requires -0x8000_0000 <= PageOffset(q.page, q.pageSize) < 0x8000_0000
    ensures GetPageAsWritten(items, q) == GetPage(items, q)
  {
    assert Wrap32(q.page - 1) == q.page - 1;
    assert PageOffsetAsWritten(q.page, q.pageSize) == PageOffset(q.page, q.pageSize);
  }

  /** For page 715827884 of size 3 the written offset wraps to a negative number. */
  lemma PageOffsetWraps()
    ensures PageOffset(715827884, 3) == 2147483649
    ensures PageOffsetAsWritten(715827884, 3) == -2147483647
  {
    TimesIsProduct(715827883, 3);
  }

  /** ... so, SQLite reading a negative OFFSET as 0, the code returns the first page ... */
  lemma AsWrittenReturnsFirstPage(items: seq<TodoItem>, q: PageQuery)
    requires q.page == 715827884 && q.pageSize == 3
    ensures GetPageAsWritten(items, q) == GetPage(items, q.(page := 1))
  {
    PageOffsetWraps();
  }

  /** ... whereas that page lies past the end of any table of fewer than 2^31 rows. */
  lemma CorrectedPageIsEmpty(items: seq<TodoItem>, q: PageQuery)
    requires q.page == 715827884 && q.pageSize == 3 && |items| < 0x8000_0000
    ensures GetPage(items, q).items == []
  {
    assert |SortedMatches(items, q.filter, q.sortBy, q.sortDesc)| <= |items|;
  }

  // ---------------------------------------------------------------- other queries

  /** `OrderBy(DueDate == null).ThenBy(DueDate).ThenByDescending(CreatedAt)`. */
  function TopAssignedKey(t: TodoItem): seq<int> {
    [BoolKey(t.dueDate.None?), t.dueDate.GetOr(0), -(t.createdAt as int)]
  }

  predicate OpenAndAssigned(t: TodoItem, tenantId: Uuid, userId: Uuid) {
    t.tenantId == tenantId && t.assignedToUserId == Some(userId) && !t.isDone
  }

  /** `a` may come before `b` in the top-assigned list. */
  predicate TopAssignedBefore(a: TodoItem, b: TodoItem) {
    && (a.dueDate.None? ==> b.dueDate.None?)
    && (a.dueDate.Some? && b.dueDate.Some? ==> a.dueDate.value <= b.dueDate.value)
    && (a.dueDate == b.dueDate ==> a.createdAt >= b.createdAt)
  }

  /** Ordering by `TopAssignedKey` is soonest-due first, undated last, ties newest-created first. */
  lemma TopAssignedKeyBefore(a: TodoItem, b: TodoItem)
    requires LexLe(TopAssignedKey(a), TopAssignedKey(b))
    ensures TopAssignedBefore(a, b)
  {
    Lex3(BoolKey(a.dueDate.None?), a.dueDate.GetOr(0), -(a.createdAt as int),
         BoolKey(b.dueDate.None?), b.dueDate.GetOr(0), -(b.createdAt as int));
  }

  lemma TopAssignedOrder(r: seq<TodoItem>)
    requires SortedBy(r, TopAssignedKey)
    ensures forall i, j :: 0 <= i < j < |r| ==> TopAssignedBefore(r[i], r[j])
  {
    forall i, j | 0 <= i < j < |r|
      ensures TopAssignedBefore(r[i], r[j])
    {
      TopAssignedKeyBefore(r[i], r[j]);
    }
  }

  /** A `Take` of a sorted sequence is a sorted selection of it. */
  lemma TakeSorted<T>(s: seq<T>, n: int, key: T -> seq<int>)
    requires SortedBy(s, key)
    ensures SortedBy(Take(s, n), key)
    ensures forall x :: x in Take(s, n) ==> x in s
  {
    var r := Take(s, n);
    assert r == s[..|r|];
    SortedSlice(s, key, 0, |r|);
  }

  /** What a `Take` of a sorted sequence leaves out sorts no earlier than anything it keeps. */
  lemma TakeLeavesLater<T>(s: seq<T>, n: int, key: T -> seq<int>)
    requires SortedBy(s, key)
    ensures multiset(Take(s, n)) <= multiset(s)
    ensures forall x, y :: x in Take(s, n) && y in multiset(s) - multiset(Take(s, n)) ==> LexLe(key(x), key(y))
  {
    var r := Take(s, n);
    var rest := s[|r|..];
    assert r == s[..|r|];
    assert s == r + rest;
    assert multiset(s) == multiset(r) + multiset(rest);
    assert multiset(s) - multiset(r) == multiset(rest);
    forall x, y | x in r && y in multiset(s) - multiset(r)
      ensures LexLe(key(x), key(y))
    {
      assert y in rest;
      var i :| 0 <= i < |r| && r[i] == x;
      var j :| 0 <= j < |rest| && rest[j] == y;
      assert s[i] == x && s[|r| + j] == y;
    }
  }

  /** The open todos that `take` cuts off come after every one it keeps. */
  lemma TopAssignedCut(open: seq<TodoItem>, take: Int32)
    ensures var r := Take(SortBy(open, TopAssignedKey), take);
      && multiset(r) <= multiset(open)
      && forall x, y :: x in r && y in multiset(open) - multiset(r) ==> TopAssignedBefore(x, y)
  {
    var sorted := SortBy(open, TopAssignedKey);
    SortBySorted(open, TopAssignedKey);
    TakeLeavesLater(sorted, take, TopAssignedKey);
    var r := Take(sorted, take);
    forall x, y | x in r && y in multiset(open) - multiset(r)
      ensures TopAssignedBefore(x, y)
    {
      TopAssignedKeyBefore(x, y);
    }
  }

  /**
   * `GetTopAssignedToUserAsync`: the user's open todos, soonest due first;
   * the first `take` of them, or all when there are no more.
   */
  function GetTopAssignedToUser(items: seq<TodoItem>, tenantId: Uuid, userId: Uuid, take: Int32): (r: seq<TodoItem>)
    ensures forall t :: t in r ==> t in items && OpenAndAssigned(t, tenantId, userId)
    ensures forall i, j :: 0 <= i < j < |r| ==> TopAssignedBefore(r[i], r[j])
    ensures var open := Where(items, (t: TodoItem) => OpenAndAssigned(t, tenantId, userId));
      && (take >= 0 ==> |r| == if take < |open| then take as int else |open|)
      && (take < 0 ==> |r| == |open|)
      && multiset(r) <= multiset(open)
      && (take < 0 || |open| <= take ==> multiset(r) == multiset(open))
      && (forall x, y :: x in r && y in multiset(open) - multiset(r) ==> TopAssignedBefore(x, y))
  {
    var open := Where(items, (t: TodoItem) => OpenAndAssigned(t, tenantId, userId));
    SortBySorted(open, TopAssignedKey);
    TakeSorted(SortBy(open, TopAssignedKey), take, TopAssignedKey);
    TopAssignedOrder(Take(SortBy(open, TopAssignedKey), take));
    TopAssignedCut(open, take);
    Take(SortBy(open, TopAssignedKey), take)
  }

  predicate ExportAdmits(t: TodoItem, tenantId: Uuid, onlyMine: bool, createdByUserId: Option<Uuid>) {
    t.tenantId == tenantId && (onlyMine && createdByUserId.Some? ==> t.createdByUserId == createdByUserId.value)
  }

  /** The export's one or two `Where` stages select, in table order, the rows `ExportAdmits`. */
  lemma ExportSelectionIsOneWhere(items: seq<TodoItem>, tenantId: Uuid, onlyMine: bool, createdByUserId: Option<Uuid>)
    ensures var byTenant := Where(items, (t: TodoItem) => t.tenantId == tenantId);
      (if onlyMine && createdByUserId.Some? then Where(byTenant, (t: TodoItem) => t.createdByUserId == createdByUserId.value)
       else byTenant)
      == Where(items, (t: TodoItem) => ExportAdmits(t, tenantId, onlyMine, createdByUserId))
  {
    var all := (t: TodoItem) => ExportAdmits(t, tenantId, onlyMine, createdByUserId);
    if onlyMine && createdByUserId.Some? {
      WhereWhere(items, (t: TodoItem) => t.tenantId == tenantId, (t: TodoItem) => t.createdByUserId == createdByUserId.value, all);
    } else {
      WhereExt(items, (t: TodoItem) => t.tenantId == tenantId, all);
    }
  }

  /** An ordering by `CreatedDescKey` is newest-created first. */
  lemma CreatedDescOrder(r: seq<TodoItem>)
    requires SortedBy(r, CreatedDescKey)
    ensures forall i, j :: 0 <= i < j < |r| ==> r[i].createdAt >= r[j].createdAt
  {
    forall i, j | 0 <= i < j < |r|
      ensures r[i].createdAt >= r[j].createdAt
    {
      Lex2(0, -(r[i].createdAt as int), 0, -(r[j].createdAt as int));
    }
  }

  /** `GetAllForExportAsync`: every todo of the tenant (or only the creator's), newest first. */
  function GetAllForExport(items: seq<TodoItem>, tenantId: Uuid, onlyMine: bool, createdByUserId: Option<Uuid>): (r: seq<TodoItem>)
    ensures multiset(r) == multiset(Where(items, (t: TodoItem) => ExportAdmits(t, tenantId, onlyMine, createdByUserId)))
    ensures forall t :: t in r <==> t in items && ExportAdmits(t, tenantId, onlyMine, createdByUserId)
    ensures forall i, j :: 0 <= i < j < |r| ==> r[i].createdAt >= r[j].createdAt
  {
    var byTenant := Where(items, (t: TodoItem) => t.tenantId == tenantId);
    var selected :=
      if onlyMine && createdByUserId.Some? then Where(byTenant, (t: TodoItem) => t.createdByUserId == createdByUserId.value)
      else byTenant;
    ExportSelectionIsOneWhere(items, tenantId, onlyMine, createdByUserId);
    SortBySorted(selected, CreatedDescKey);
    CreatedDescOrder(SortBy(selected, CreatedDescKey));
    SortBy(selected, CreatedDescKey)
  }

  /** `GetByIdAsync` / `GetByIdForUpdateAsync`: the todo with that id, if it is in the tenant. */
  function GetById(items: seq<TodoItem>, id: Uuid, tenantId: Uuid): (r: Option<TodoItem>)
    ensures r.Some? ==> r.value in items && r.value.id == id && r.value.tenantId == tenantId
    ensures r.None? <==> forall t :: t in items ==> !(t.id == id && t.tenantId == tenantId)
  {
    FirstOrDefault(items, (t: TodoItem) => t.id == id && t.tenantId == tenantId)
  }

  /** With unique ids the lookup is the one row with that id, when its tenant matches. */
  lemma GetByIdUnique(items: seq<TodoItem>, k: nat, tenantId: Uuid)
    requires UniqueTodoIds(items) && k < |items|
    ensures GetById(items, items[k].id, tenantId) == if items[k].tenantId == tenantId then Some(items[k]) else None
  {
    var r := GetById(items, items[k].id, tenantId);
    if r.Some? {
      var j :| 0 <= j < |items| && items[j] == r.value;
      assert j == k;
    }
  }

  // ---------------------------------------------------------------- votes

  /** The vote rows of one todo. */
  function VotesFor(votes: set<TodoItemVote>, todoItemId: Uuid): set<TodoItemVote> {
    set v | v in votes && v.todoItemId == todoItemId
  }

  /** `GetVoteCountsAsync`: the number of votes per listed id, for the ids that have any. */
  function GetVoteCounts(votes: set<TodoItemVote>, todoItemIds: seq<Uuid>): (r: map<Uuid, int>)
    ensures forall id :: id in r <==> id in todoItemIds && VotesFor(votes, id) != {}
    ensures forall id :: id in r ==> r[id] == |VotesFor(votes, id)| && r[id] > 0
  {
    if |todoItemIds| == 0 then map[]
    else map id | id in todoItemIds && VotesFor(votes, id) != {} :: |VotesFor(votes, id)|
  }

  /** `voteCounts.GetValueOrDefault(id, 0)` is the number of vote rows of `id`, zero included. */
  lemma VoteCountOrZero(votes: set<TodoItemVote>, todoItemIds: seq<Uuid>, id: Uuid)
    requires id in todoItemIds
    ensures var m := GetVoteCounts(votes, todoItemIds);
      (if id in m then m[id] else 0) == |VotesFor(votes, id)|
  {
  }

  /** `GetUserVotedTodoIdsAsync`: the listed ids the user has voted for. */
  function GetUserVotedTodoIds(votes: set<TodoItemVote>, userId: Uuid, todoItemIds: seq<Uuid>): (r: set<Uuid>)
    ensures forall id :: id in r <==> id in todoItemIds && TodoItemVote(id, userId) in votes
  {
    if |todoItemIds| == 0 then {}
    else set v | v in votes && v.userId == userId && v.todoItemId in todoItemIds :: v.todoItemId
  }

  /** Flip the presence of one vote row. */
  function Toggled(votes: set<TodoItemVote>, v: TodoItemVote): set<TodoItemVote> {
    if v in votes then votes - {v} else votes + {v}
  }

  /** Toggling twice restores the vote set. */
  lemma ToggleTwice(votes: set<TodoItemVote>, v: TodoItemVote)
    ensures Toggled(Toggled(votes, v), v) == votes
  {
  }

  /** A toggle moves that todo's vote count by exactly one and leaves every other todo's count alone. */
  lemma ToggleCounts(votes: set<TodoItemVote>, v: TodoItemVote, other: Uuid)
    ensures |VotesFor(Toggled(votes, v), v.todoItemId)| ==
      if v in votes then |VotesFor(votes, v.todoItemId)| - 1 else |VotesFor(votes, v.todoItemId)| + 1
    ensures other != v.todoItemId ==> VotesFor(Toggled(votes, v), other) == VotesFor(votes, other)
  {
    if v in votes {
      assert VotesFor(Toggled(votes, v), v.todoItemId) == VotesFor(votes, v.todoItemId) - {v};
    } else {
      assert VotesFor(Toggled(votes, v), v.todoItemId) == VotesFor(votes, v.todoItemId) + {v};
    }
  }

  // ---------------------------------------------------------------- writes

  /** `AddAsync`: append the new row; the caller supplies a fresh id. */
  method AddTodo(db: HoneydewDb, item: TodoItem) returns (r: TodoItem)
    requires db.Valid()
    requires forall t :: t in db.todoItems ==> t.id != item.id
    modifies db`todoItems
    ensures db.Valid()
    ensures db.todoItems == old(db.todoItems) + [item]
    ensures r == item
  {
    db.todoItems := db.todoItems + [item];
    r := item;
  }

  /** A tracked edit of the row keyed `item.id` after `SaveChanges`: that row becomes `item`. */
  function ReplaceTodo(items: seq<TodoItem>, item: TodoItem): (r: seq<TodoItem>)
    ensures |r| == |items|
    ensures forall i :: 0 <= i < |items| ==> r[i] == if items[i].id == item.id then item else items[i]
  {
    Select(items, (t: TodoItem) => if t.id == item.id then item else t)
  }

  /** Replacing a row by one with the same key keeps every key where it was. */
  lemma ReplaceTodoKeys(items: seq<TodoItem>, item: TodoItem)
    requires UniqueTodoIds(items)
    ensures UniqueTodoIds(ReplaceTodo(items, item))
  {
    var r := ReplaceTodo(items, item);
    forall i, j | 0 <= i < j < |r|
      ensures r[i].id != r[j].id
    {
      assert r[i].id == items[i].id && r[j].id == items[j].id;
    }
  }

  /** After replacing a stored row, the lookup by its key finds the new row and every other row is untouched. */
  lemma ReplaceTodoFinds(items: seq<TodoItem>, k: nat, item: TodoItem)
    requires UniqueTodoIds(items) && k < |items| && items[k].id == item.id
    ensures UniqueTodoIds(ReplaceTodo(items, item))
    ensures GetById(ReplaceTodo(items, item), item.id, item.tenantId) == Some(item)
    ensures forall t :: t in items && t.id != item.id ==> t in ReplaceTodo(items, item)
  {
    var r := ReplaceTodo(items, item);
    GetByIdUnique(r, k, item.tenantId);
    forall t | t in items && t.id != item.id
      ensures t in r
    {
      var j :| 0 <= j < |items| && items[j] == t;
      assert r[j] == t;
    }
  }

  /** `SaveChangesAsync` after editing the tracked todo `item.Id`. */
  method SaveTodo(db: HoneydewDb, item: TodoItem)
    requires db.Valid()
    requires exists k :: 0 <= k < |db.todoItems| && db.todoItems[k].id == item.id
    modifies db`todoItems
    ensures db.Valid()
    ensures db.todoItems == ReplaceTodo(old(db.todoItems), item)
  {
    ReplaceTodoKeys(db.todoItems, item);
    db.todoItems := ReplaceTodo(db.todoItems, item);
  }

  /** `ToggleVoteAsync`: true when a vote was added, false when one was removed or the todo is not in the tenant. */
  method ToggleVote(db: HoneydewDb, todoItemId: Uuid, userId: Uuid, tenantId: Uuid) returns (added: bool)
    requires db.Valid()
    modifies db`todoItemVotes
    ensures db.Valid()
    ensures GetById(db.todoItems, todoItemId, tenantId).None? ==> !added && db.todoItemVotes == old(db.todoItemVotes)
    ensures GetById(db.todoItems, todoItemId, tenantId).Some? ==>
      && added == (TodoItemVote(todoItemId, userId) !in old(db.todoItemVotes))
      && db.todoItemVotes == Toggled(old(db.todoItemVotes), TodoItemVote(todoItemId, userId))
  {
    var todo := GetById(db.todoItems, todoItemId, tenantId);
    if todo.None? {
      return false;
    }
    var vote := TodoItemVote(todoItemId, userId);
    if vote in db.todoItemVotes {
      db.todoItemVotes := db.todoItemVotes - {vote};
      return false;
    }
    db.todoItemVotes := db.todoItemVotes + {vote};
    return true;
  }
}

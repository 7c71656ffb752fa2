/**
 * The parts of `TodosController` that compute rather than route: the
 * clamps it applies to `page`, `pageSize` and `take` before calling the
 * service, and `BuildCsv`, the text of the CSV export.
 */
module TodosController {
  import opened Wrappers
  import opened Entities
  import opened Linq
  import opened Csv
  import opened Formatting
  import opened UsersData
  import opened TodoService

  // ---------------------------------------------------------------- clamps

  /** `Math.Clamp(value, min, max)` (which throws when `min > max`). */
  function Clamp(value: Int32, min: Int32, max: Int32): (r: Int32)
    requires min <= max
    ensures min <= r <= max
    ensures min <= value <= max ==> r == value
    ensures value < min ==> r == min
    ensures value > max ==> r == max
  {
    if value < min then min else if value > max then max else value
  }

  /** Clamping never moves values past one another, and a clamped value stays put. */
  lemma ClampMonotone(a: Int32, b: Int32, min: Int32, max: Int32)
    requires min <= max && a <= b
    ensures Clamp(a, min, max) <= Clamp(b, min, max)
    ensures Clamp(Clamp(a, min, max), min, max) == Clamp(a, min, max)
  {
  }

  /** `Math.Max(1, page)`. */
  function ClampPage(page: Int32): (r: Int32)
    ensures r >= 1 && (page >= 1 ==> r == page)
  {
    if page < 1 then 1 else page
  }

  /** What `List` answers with: the page of items, the whole count, and the page and size it used. */
  datatype TodoListResponse = TodoListResponse(items: seq<TodoItemResponse>, totalCount: int, page: Int32, pageSize: Int32)

  /** `List`: the page request with `page >= 1` and `3 <= pageSize <= 99`, passed on to `GetPageAsync`. */
  function ListTodos(items: seq<TodoItem>, users: seq<User>, votes: set<TodoItemVote>,
                     userId: Uuid, tenantId: Uuid, req: TodoPageRequest): (r: Result<TodoListResponse>)
    ensures r.Failure? <==> CurrentUser(users, userId, tenantId).None?
    ensures r.Success? ==>
      && r.value.page >= 1 && 3 <= r.value.pageSize <= 99
      && (req.page >= 1 ==> r.value.page == req.page)
      && (3 <= req.pageSize <= 99 ==> r.value.pageSize == req.pageSize)
      && |r.value.items| <= r.value.pageSize
      && var clamped := TodoPageRequest(req.onlyMine, req.includeCompleted, req.assignedToUserIds, req.search,
                                        req.sortBy, req.sortDesc, r.value.page, r.value.pageSize);
         GetTodoPage(items, users, votes, userId, tenantId, clamped) == Success(TodoPage(r.value.items, r.value.totalCount))
  {
    var page := ClampPage(req.page);
    var pageSize := Clamp(req.pageSize, 3, 99);
    var clamped := TodoPageRequest(req.onlyMine, req.includeCompleted, req.assignedToUserIds, req.search,
                                   req.sortBy, req.sortDesc, page, pageSize);
    match GetTodoPage(items, users, votes, userId, tenantId, clamped)
    case Failure(e) => Failure(e)
    case Success(p) => Success(TodoListResponse(p.items, p.totalCount, page, pageSize))
  }

  /** `AssignedToMe`: at most `take` items, with `take` clamped to [1, 20]. */
  function AssignedToMe(items: seq<TodoItem>, users: seq<User>, votes: set<TodoItemVote>,
                        userId: Uuid, tenantId: Uuid, take: Int32): (r: Result<seq<TodoItemResponse>>)
    ensures r.Failure? <==> CurrentUser(users, userId, tenantId).None?
    ensures r.Success? ==>
      && |r.value| <= 20
      && (1 <= take <= 20 ==> |r.value| <= take)
      && (forall x :: x in r.value ==> !x.isDone && x.assignedToUserId == Some(userId))
      && r == TopAssignedToMe(items, users, votes, userId, tenantId, Clamp(take, 1, 20))
      && r.value == Respond(votes, userId, TodoData.GetTopAssignedToUser(items, tenantId, userId, Clamp(take, 1, 20)))
  {
    TopAssignedToMe(items, users, votes, userId, tenantId, Clamp(take, 1, 20))
  }

  // ---------------------------------------------------------------- CSV export

  /** The column names, as fields: the header line `Id,Title,Notes,IsDone,CompletedAt,DueDate,AssignedToUserId,CreatedAt`. */
  const Header: seq<Field> := [Bare("Id"), Bare("Title"), Bare("Notes"), Bare("IsDone"), Bare("CompletedAt"),
                               Bare("DueDate"), Bare("AssignedToUserId"), Bare("CreatedAt")]

  /** Eight fields joined, spelled out. */
  lemma JoinEight(a: Field, b: Field, c: Field, d: Field, e: Field, f: Field, g: Field, h: Field)
    ensures JoinFields([a, b, c, d, e, f, g, h]) == RenderField(a) + "," + RenderField(b) + "," + RenderField(c) + ","
      + RenderField(d) + "," + RenderField(e) + "," + RenderField(f) + "," + RenderField(g) + "," + RenderField(h)
  {
    var s := [a, b, c, d, e, f, g, h];
    assert s[..7] == [a, b, c, d, e, f, g];
    assert [a, b, c, d, e, f, g][..6] == [a, b, c, d, e, f];
    assert [a, b, c, d, e, f][..5] == [a, b, c, d, e];
    assert [a, b, c, d, e][..4] == [a, b, c, d];
    assert [a, b, c, d][..3] == [a, b, c];
    assert [a, b, c][..2] == [a, b];
    assert [a, b][..1] == [a];
    assert JoinFields([a, b]) == RenderField(a) + "," + RenderField(b);
    assert JoinFields([a, b, c]) == JoinFields([a, b]) + "," + RenderField(c);
    assert JoinFields([a, b, c, d]) == JoinFields([a, b, c]) + "," + RenderField(d);
    assert JoinFields([a, b, c, d, e]) == JoinFields([a, b, c, d]) + "," + RenderField(e);
    assert JoinFields([a, b, c, d, e, f]) == JoinFields([a, b, c, d, e]) + "," + RenderField(f);
    assert JoinFields([a, b, c, d, e, f, g]) == JoinFields([a, b, c, d, e, f]) + "," + RenderField(g);
  }

  /**
   * A string whose characters all lie between 'A' and 'z' holds no comma,
   * quote or line break, so it stands bare; every column name is one.
   */
  lemma NameIsBareSafe(s: string)
    requires forall i :: 0 <= i < |s| ==> 'A' <= s[i] <= 'z'
    ensures BareSafe(s)
  {
    BareSafeChars(s);
  }

  lemma HeaderIsRecord()
    ensures RecordOk(Header)
  {
    forall k | 0 <= k < 8
      ensures FieldOk(Header[k])
    {
      NameIsBareSafe(Header[k].text);
    }
  }

  lemma GuidIsBareSafe(g: Uuid)
    ensures BareSafe(FormatGuid(g))
  {
    var s := FormatGuid(g);
    GuidText(g);
    assert forall i :: 0 <= i < |s| ==> SafeChar(s[i]);
    BareSafeChars(s);
  }

  lemma BoolIsBareSafe(b: bool)
    ensures BareSafe(FormatBool(b))
  {
    BareSafeChars(FormatBool(b));
  }

  lemma DateIsBareSafe(d: DateTime)
    ensures BareSafe(FormatRoundTripDate(d))
  {
    RoundTripDateChars(d);
    BareSafeChars(FormatRoundTripDate(d));
  }

  /** A nullable date: its "o" text, or nothing. */
  function OptionalDate(d: Option<DateTime>): string {
    if d.Some? then FormatRoundTripDate(d.value) else ""
  }

  /** A nullable user id: its text, or nothing. */
  function OptionalGuid(g: Option<Uuid>): string {
    if g.Some? then FormatGuid(g.value) else ""
  }

  /** A date is written as an empty field exactly when it is missing; a present one is bare-safe. */
  lemma OptionalDateText(d: Option<DateTime>)
    ensures BareSafe(OptionalDate(d)) && (OptionalDate(d) == [] <==> d.None?)
  {
    if d.Some? {
      DateIsBareSafe(d.value);
      RoundTripDateChars(d.value);
    }
  }

  /** A user id is written as an empty field exactly when it is missing; a present one is bare-safe. */
  lemma OptionalGuidText(g: Option<Uuid>)
    ensures BareSafe(OptionalGuid(g)) && (OptionalGuid(g) == [] <==> g.None?)
  {
    if g.Some? {
      GuidIsBareSafe(g.value);
      GuidText(g.value);
    }
  }

  /** Eight column texts as fields: the title always quoted, the notes quoted when present and empty when null. */
  function RecordOf(id: string, title: string, notes: Option<string>, isDone: string,
                    completed: string, due: string, assignee: string, created: string): (r: seq<Field>)
    ensures |r| == 8 && r[0] == Bare(id) && r[1] == Quoted(title)
    ensures notes.None? ==> r[2] == Bare([])
    ensures notes.Some? ==> r[2] == Quoted(notes.value)
    ensures r[3] == Bare(isDone) && r[4] == Bare(completed) && r[5] == Bare(due)
    ensures r[6] == Bare(assignee) && r[7] == Bare(created)
  {
    var n := if notes.None? then Bare([]) else Quoted(notes.value);
    [Bare(id), Quoted(title), n, Bare(isDone), Bare(completed), Bare(due), Bare(assignee), Bare(created)]
  }

  /** The fields of one todo's line. */
  function CsvRecord(t: TodoItemResponse): (r: seq<Field>)
    ensures |r| == 8
  {
    RecordOf(FormatGuid(t.id), t.title, t.notes, FormatBool(t.isDone), OptionalDate(t.completedAt),
      OptionalDate(t.dueDate), OptionalGuid(t.assignedToUserId), FormatRoundTripDate(t.createdAt))
  }

  /** A todo's record can be written and read back: every bare field is free of commas, quotes and line breaks. */
  lemma CsvRecordOk(t: TodoItemResponse)
    ensures RecordOk(CsvRecord(t))
  {
    var r := CsvRecord(t);
    GuidIsBareSafe(t.id);
    BoolIsBareSafe(t.isDone);
    DateIsBareSafe(t.createdAt);
    OptionalDateText(t.completedAt);
    OptionalDateText(t.dueDate);
    OptionalGuidText(t.assignedToUserId);
    forall k | 0 <= k < 8
      ensures FieldOk(r[k])
    {
    }
  }

  /**
   * The fields of a todo's record mean what the columns say (absent dates
   * and assignee, and only those, are empty), and the record can be read back.
   */
  lemma CsvRecordFields(t: TodoItemResponse)
    ensures var r := CsvRecord(t);
      && r[0] == Bare(FormatGuid(t.id)) && r[1] == Quoted(t.title)
      && (t.notes.None? ==> r[2] == Bare([]))
      && (t.notes.Some? ==> r[2] == Quoted(t.notes.value))
      && r[3] == Bare(FormatBool(t.isDone))
      && r[4].Bare? && (r[4].text == [] <==> t.completedAt.None?)
      && r[5].Bare? && (r[5].text == [] <==> t.dueDate.None?)
      && r[6].Bare? && (r[6].text == [] <==> t.assignedToUserId.None?)
      && r[7] == Bare(FormatRoundTripDate(t.createdAt))
  {
    OptionalDateText(t.completedAt);
    OptionalDateText(t.dueDate);
    OptionalGuidText(t.assignedToUserId);
  }

  /** The line `BuildCsv` appends for one todo, written as its interpolated string is: the record rendered. */
  function Row(t: TodoItemResponse): (r: string)
    ensures r == RenderRecord(CsvRecord(t))
  {
    var title := "\"" + Escape(t.title) + "\"";
    var notes := if t.notes.None? then "" else "\"" + Escape(t.notes.value) + "\"";
    var completed := OptionalDate(t.completedAt);
    var due := OptionalDate(t.dueDate);
    var assignee := OptionalGuid(t.assignedToUserId);
    var fs := CsvRecord(t);
    JoinEight(fs[0], fs[1], fs[2], fs[3], fs[4], fs[5], fs[6], fs[7]);
    assert fs == [fs[0], fs[1], fs[2], fs[3], fs[4], fs[5], fs[6], fs[7]];
    FormatGuid(t.id) + "," + title + "," + notes + "," + FormatBool(t.isDone) + ","
      + completed + "," + due + "," + assignee + "," + FormatRoundTripDate(t.createdAt) + "\n"
  }

  /** The header record, then one record per todo in list order. */
  function Records(list: seq<TodoItemResponse>): seq<seq<Field>> {
    [Header] + Select(list, CsvRecord)
  }

  /** The header comes first, then the todos' records in list order. */
  lemma RecordsInOrder(list: seq<TodoItemResponse>)
    ensures var rs := Records(list);
      && |rs| == |list| + 1 && rs[0] == Header
      && forall i :: 0 <= i < |list| ==> rs[i + 1] == CsvRecord(list[i])
  {
  }

  lemma RecordAtOk(list: seq<TodoItemResponse>, k: nat)
    requires k <= |list|
    ensures RecordOk(Records(list)[k])
  {
    RecordsInOrder(list);
    if k == 0 {
      HeaderIsRecord();
    } else {
      CsvRecordOk(list[k - 1]);
    }
  }

  /** Every record of the export can be written and read back. */
  lemma RecordsOk(list: seq<TodoItemResponse>)
    ensures forall r :: r in Records(list) ==> RecordOk(r)
  {
    var rs := Records(list);
    RecordsInOrder(list);
    forall r | r in rs
      ensures RecordOk(r)
    {
      var k :| 0 <= k < |rs| && rs[k] == r;
      RecordAtOk(list, k);
    }
  }

  /** The whole export text. */
  function CsvDocument(list: seq<TodoItemResponse>): string {
    RenderAll(Records(list))
  }

  /** With no todos the export is the header line alone. */
  lemma EmptyDocument()
    ensures CsvDocument([]) == RenderRecord(Header)
  {
    assert Records([]) == [Header];
    assert [Header][1..] == [];
  }

  /** One more todo adds its record at the end. */
  lemma RecordsAppend(list: seq<TodoItemResponse>, t: TodoItemResponse)
    ensures Records(list + [t]) == Records(list) + [CsvRecord(t)]
  {
    ConsSelectAppend(Header, list, t, CsvRecord);
  }

  /** One more todo adds its line to the document of the todos before it. */
  lemma DocumentGrows(list: seq<TodoItemResponse>, t: TodoItemResponse)
    ensures CsvDocument(list + [t]) == CsvDocument(list) + Row(t)
  {
    RecordsAppend(list, t);
    RenderAllAppend(Records(list), CsvRecord(t));
  }

  /** `BuildCsv`: the header line, then one line per todo. */
  method BuildCsv(list: seq<TodoItemResponse>) returns (csv: string)
    ensures csv == CsvDocument(list)
  {
    csv := RenderRecord(Header);
    assert list[..0] == [];
    EmptyDocument();
    for i := 0 to |list|
      invariant csv == CsvDocument(list[..i])
    {
      var t := list[i];
      PrefixSnoc(list, i);
      DocumentGrows(list[..i], t);
      csv := csv + Row(t);
    }
    assert list[..|list|] == list;
  }

  /**
   * Read back by RFC 4180's rules, the export is the header line and then
   * exactly one record per todo, in list order, whose second field gives
   * back the title, quote for quote.
   */
  lemma ExportParses(list: seq<TodoItemResponse>)
    ensures ParseAll(CsvDocument(list)) == Some(Records(list))
    ensures var doc := CsvDocument(list); var head := RenderRecord(Header);
      |doc| >= |head| && doc[..|head|] == head
    ensures forall i :: 0 <= i < |list| ==> Records(list)[i + 1][1] == Quoted(list[i].title)
  {
    var rs := Records(list);
    RecordsInOrder(list);
    RecordsOk(list);
    DocumentParses(rs);
    assert RenderAll(rs) == RenderRecord(Header) + RenderAll(rs[1..]);
    forall i | 0 <= i < |list|
      ensures rs[i + 1][1] == Quoted(list[i].title)
    {
      CsvRecordFields(list[i]);
    }
  }
}

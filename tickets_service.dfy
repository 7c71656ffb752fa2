/**
 * `SupportTicketsService`: a household's support tickets as the API shows
 * them. Every operation first resolves the caller in its tenant
 * ("Unauthorized"); tickets of another tenant are "NotFound".
 */
module TicketsService {
  import opened Wrappers
  import opened Entities
  import opened Strings
  import opened Linq
  import opened Database
  import opened UsersData
  import opened TicketsData

  datatype CreateSupportTicketRequest = CreateSupportTicketRequest(subject: string, body: Option<string>)

  datatype SupportTicketResponse = SupportTicketResponse(
    id: Uuid,
    tenantId: Uuid,
    subject: string,
    body: string,
    status: string,
    createdAt: DateTime,
    updatedAt: Option<DateTime>)

  datatype SupportTicketReplyResponse = SupportTicketReplyResponse(
    id: Uuid,
    supportTicketId: Uuid,
    body: string,
    isFromStaff: bool,
    createdAt: DateTime)

  datatype SupportTicketWithRepliesResponse = SupportTicketWithRepliesResponse(
    ticket: SupportTicketResponse,
    replies: seq<SupportTicketReplyResponse>)

  const SubjectRequired: string := "Subject is required."
  const BodyRequired: string := "Body is required."
  const BadStatus: string := "Status must be Open or Closed."
  const Open: string := "Open"
  const Closed: string := "Closed"

  function MapTicket(t: SupportTicket): SupportTicketResponse {
    SupportTicketResponse(t.id, t.tenantId, t.subject, t.body, t.status, t.createdAt, t.updatedAt)
  }

  function MapReply(x: SupportTicketReply): SupportTicketReplyResponse {
    SupportTicketReplyResponse(x.id, x.supportTicketId, x.body, x.isFromStaff, x.createdAt)
  }

  /** `ListAsync`: the caller's tenant's tickets, the latest created first. */
  function ListTickets(users: seq<User>, tickets: seq<SupportTicket>, userId: Uuid, tenantId: Uuid)
    : (r: Result<seq<SupportTicketResponse>>)
    ensures r.Failure? <==> CurrentUser(users, userId, tenantId).None?
    ensures r.Failure? ==> r.error == "Unauthorized"
    ensures r.Success? ==> r.value == Select(TicketsData.GetByTenantId(tickets, tenantId), MapTicket)
    ensures r.Success? ==> forall t :: t in tickets && t.tenantId == tenantId ==> MapTicket(t) in r.value
    ensures r.Success? ==> forall s :: s in r.value ==> exists t :: t in tickets && t.tenantId == tenantId && s == MapTicket(t)
    ensures r.Success? ==> forall i, j :: 0 <= i < j < |r.value| ==> r.value[i].createdAt >= r.value[j].createdAt
  {
    if CurrentUser(users, userId, tenantId).None? then Failure("Unauthorized")
    else
      var own := TicketsData.GetByTenantId(tickets, tenantId);
      SelectMembers(own, MapTicket);
      Success(Select(own, MapTicket))
  }

  /** The row `CreateAsync` stores: an open ticket with trimmed text, a missing body read as empty (whose trim is empty). */
  function NewTicket(id: Uuid, tenantId: Uuid, req: CreateSupportTicketRequest, now: DateTime): (r: SupportTicket)
    ensures r.id == id && r.tenantId == tenantId && r.status == Open && r.updatedAt.None?
    ensures r.subject == Trim(req.subject)
    ensures r.subject == [] <==> IsBlank(req.subject)
    ensures req.body.None? ==> r.body == []
    ensures req.body.Some? ==> r.body == Trim(req.body.value)
  {
    TrimEmptyIffBlank(req.subject);
    var body := if req.body.Some? then Trim(req.body.value) else [];
    SupportTicket(id, tenantId, Trim(req.subject), body, Open, now, None)
  }

  /** The checks `CreateAsync` makes before it stores anything, in their order. */
  function CreateTicketError(users: seq<User>, userId: Uuid, tenantId: Uuid, subject: string): (r: Option<string>)
    ensures r == Some("Unauthorized") <==> CurrentUser(users, userId, tenantId).None?
    ensures r == Some(SubjectRequired) <==> CurrentUser(users, userId, tenantId).Some? && IsBlank(subject)
    ensures r.None? <==> CurrentUser(users, userId, tenantId).Some? && !IsBlank(subject)
  {
    if CurrentUser(users, userId, tenantId).None? then Some("Unauthorized")
    else if IsNullOrWhiteSpace(Some(subject)) then Some(SubjectRequired)
    else None
  }

  /** `CreateAsync`. */
  method CreateTicket(db: HoneydewDb, userId: Uuid, tenantId: Uuid, req: CreateSupportTicketRequest, newId: Uuid, now: DateTime)
    returns (r: Result<SupportTicketResponse>)
    requires db.Valid()
    requires forall t :: t in db.supportTickets ==> t.id != newId
    modifies db`supportTickets
    ensures db.Valid()
    ensures r.Failure? <==> CreateTicketError(db.users, userId, tenantId, req.subject).Some?
    ensures r.Failure? ==>
      && r.error == CreateTicketError(db.users, userId, tenantId, req.subject).value
      && db.supportTickets == old(db.supportTickets)
    ensures r.Success? ==>
      && !IsBlank(req.subject)
      && db.supportTickets == old(db.supportTickets) + [NewTicket(newId, tenantId, req, now)]
      && r.value == MapTicket(NewTicket(newId, tenantId, req, now))
  {
    var error := CreateTicketError(db.users, userId, tenantId, req.subject);
    if error.Some? {
      return Failure(error.value);
    }
    var ticket := NewTicket(newId, tenantId, req, now);
    var stored := AddTicket(db, ticket);
    r := Success(MapTicket(stored));
  }

  /** `GetByIdWithRepliesAsync`: the ticket with its replies, the earliest written first. */
  function GetTicketWithReplies(users: seq<User>, tickets: seq<SupportTicket>, replies: seq<SupportTicketReply>,
                                userId: Uuid, tenantId: Uuid, ticketId: Uuid)
    : (r: Result<SupportTicketWithRepliesResponse>)
    ensures r == Failure("Unauthorized") <==> CurrentUser(users, userId, tenantId).None?
    ensures r == Failure("NotFound") <==>
      CurrentUser(users, userId, tenantId).Some? && TicketsData.GetById(tickets, ticketId, tenantId).None?
    ensures r.Failure? ==> r.error == "Unauthorized" || r.error == "NotFound"
    ensures r.Success? ==>
      && r.value.ticket == MapTicket(TicketsData.GetById(tickets, ticketId, tenantId).value)
      && r.value.ticket.tenantId == tenantId
      && r.value.replies == Select(RepliesOf(replies, ticketId), MapReply)
      && (forall x :: x in replies && x.supportTicketId == ticketId ==> MapReply(x) in r.value.replies)
      && (forall y :: y in r.value.replies ==> y.supportTicketId == ticketId)
      && (forall i, j :: 0 <= i < j < |r.value.replies| ==> r.value.replies[i].createdAt <= r.value.replies[j].createdAt)
  {
    if CurrentUser(users, userId, tenantId).None? then Failure("Unauthorized")
    else match GetByIdWithReplies(tickets, replies, ticketId, tenantId)
      case None => Failure("NotFound")
      case Some(found) =>
        SelectMembers(found.replies, MapReply);
        Success(SupportTicketWithRepliesResponse(MapTicket(found.ticket), Select(found.replies, MapReply)))
  }

  /** The row `AddReplyAsync` stores: a trimmed body, never from staff. */
  function NewReply(id: Uuid, ticketId: Uuid, body: string, now: DateTime): (r: SupportTicketReply)
    requires !IsBlank(body)
    ensures r.id == id && r.supportTicketId == ticketId && !r.isFromStaff
    ensures r.body == Trim(body) && r.body != []
  {
    TrimEmptyIffBlank(body);
    SupportTicketReply(id, ticketId, Trim(body), false, now)
  }

  /** `AddReplyAsync`: the ticket must be the tenant's; it is looked up before the body is checked. */
  method AddReply(db: HoneydewDb, userId: Uuid, tenantId: Uuid, ticketId: Uuid, body: string, newId: Uuid, now: DateTime)
    returns (r: Result<SupportTicketReplyResponse>)
    requires db.Valid()
    requires forall x :: x in db.supportTicketReplies ==> x.id != newId
    modifies db`supportTicketReplies
    ensures db.Valid()
    ensures r.Failure? ==> db.supportTicketReplies == old(db.supportTicketReplies)
    ensures r.Failure? ==> r.error == "Unauthorized" || r.error == "NotFound" || r.error == BodyRequired
    ensures r == Failure("Unauthorized") <==> CurrentUser(db.users, userId, tenantId).None?
    ensures r == Failure("NotFound") <==>
      CurrentUser(db.users, userId, tenantId).Some? && TicketsData.GetById(db.supportTickets, ticketId, tenantId).None?
    ensures r == Failure(BodyRequired) <==>
      && CurrentUser(db.users, userId, tenantId).Some? && TicketsData.GetById(db.supportTickets, ticketId, tenantId).Some?
      && IsBlank(body)
    ensures r.Success? ==>
      && !IsBlank(body)
      && db.supportTicketReplies == old(db.supportTicketReplies) + [NewReply(newId, ticketId, body, now)]
      && r.value == MapReply(NewReply(newId, ticketId, body, now))
      && NewReply(newId, ticketId, body, now) in RepliesOf(db.supportTicketReplies, ticketId)
  {
    if CurrentUser(db.users, userId, tenantId).None? {
      return Failure("Unauthorized");
    }
    if TicketsData.GetById(db.supportTickets, ticketId, tenantId).None? {
      return Failure("NotFound");
    }
    if IsNullOrWhiteSpace(Some(body)) {
      return Failure(BodyRequired);
    }
    var reply := NewReply(newId, ticketId, body, now);
    AddedReplyIsListed(db.supportTicketReplies, reply);
    var stored := TicketsData.AddReply(db, reply);
    r := Success(MapReply(stored));
  }

  /** `(request.Status ?? "Open").Trim()`; "Open" is its own trim. */
  function RequestedStatus(status: Option<string>): (r: string)
    ensures status.None? ==> r == Open
    ensures status.Some? ==> r == Trim(status.value)
  {
    if status.None? then Open else Trim(status.value)
  }

  /** The two statuses a ticket may be set to, compared exactly (case matters). */
  predicate ValidStatus(s: string) {
    s == Open || s == Closed
  }

  /** `UpdateStatusAsync`: the status is checked before the store is touched. */
  method UpdateStatus(db: HoneydewDb, userId: Uuid, tenantId: Uuid, ticketId: Uuid, status: Option<string>, now: DateTime)
    returns (ok: bool, error: Option<string>)
    requires db.Valid()
    modifies db`supportTickets
    ensures db.Valid()
    ensures ok <==> error.None?
    ensures !ok ==> db.supportTickets == old(db.supportTickets)
    ensures error.Some? ==> error.value == "Unauthorized" || error.value == BadStatus || error.value == "NotFound"
    ensures error == Some("Unauthorized") <==> CurrentUser(db.users, userId, tenantId).None?
    ensures error == Some(BadStatus) <==>
      CurrentUser(db.users, userId, tenantId).Some? && !ValidStatus(RequestedStatus(status))
    ensures error == Some("NotFound") <==>
      && CurrentUser(db.users, userId, tenantId).Some? && ValidStatus(RequestedStatus(status))
      && TicketsData.GetById(old(db.supportTickets), ticketId, tenantId).None?
    ensures ok ==>
      var t := TicketsData.GetById(old(db.supportTickets), ticketId, tenantId).value;
      var edited := SupportTicket(t.id, t.tenantId, t.subject, t.body, RequestedStatus(status), t.createdAt, Some(now));
      && db.supportTickets == ReplaceTicket(old(db.supportTickets), edited)
      && TicketsData.GetById(db.supportTickets, ticketId, tenantId) == Some(edited)
  {
    if CurrentUser(db.users, userId, tenantId).None? {
      return false, Some("Unauthorized");
    }
    var s := RequestedStatus(status);
    if s != Open && s != Closed {
      return false, Some(BadStatus);
    }
    var updated := TicketsData.UpdateStatus(db, ticketId, tenantId, s, now);
    if updated {
      ok, error := true, None;
    } else {
      ok, error := false, Some("NotFound");
    }
  }
}

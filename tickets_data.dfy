/**
 * `SupportTicketsDataAccess`: a tenant's support tickets (newest first), a
 * ticket by id within its tenant, with its replies in the order they were
 * written, and the three writes (new ticket, new reply, status change).
 */
module TicketsData {
  import opened Wrappers
  import opened Entities
  import opened Linq
  import opened Ordering
  import opened Database

  /** `OrderByDescending(t => t.CreatedAt)`. */
  function NewestFirstKey(t: SupportTicket): seq<int> {
    [-(t.createdAt as int)]
  }

  /** `OrderBy(r => r.CreatedAt)`. */
  function OldestFirstKey(r: SupportTicketReply): seq<int> {
    [r.createdAt as int]
  }

  /** A one-element key compares by its element. */
  lemma Lex1(a: int, b: int)
    ensures LexLe([a], [b]) <==> a <= b
  {
    assert [a][1..] == [] && [b][1..] == [];
    assert LexLe([], []);
  }

  /** Tickets sorted by the newest-first key are in descending `CreatedAt` order. */
  lemma NewestFirstOrder(r: seq<SupportTicket>)
    requires SortedBy(r, NewestFirstKey)
    ensures forall i, j :: 0 <= i < j < |r| ==> r[i].createdAt >= r[j].createdAt
  {
    forall i, j | 0 <= i < j < |r|
      ensures r[i].createdAt >= r[j].createdAt
    {
      Lex1(-(r[i].createdAt as int), -(r[j].createdAt as int));
    }
  }

  /** Replies sorted by the oldest-first key are in ascending `CreatedAt` order. */
  lemma OldestFirstOrder(r: seq<SupportTicketReply>)
    requires SortedBy(r, OldestFirstKey)
    ensures forall i, j :: 0 <= i < j < |r| ==> r[i].createdAt <= r[j].createdAt
  {
    forall i, j | 0 <= i < j < |r|
      ensures r[i].createdAt <= r[j].createdAt
    {
      Lex1(r[i].createdAt as int, r[j].createdAt as int);
    }
  }

  /** `GetByTenantIdAsync`: exactly the tenant's tickets, the latest created first. */
  function GetByTenantId(tickets: seq<SupportTicket>, tenantId: Uuid): (r: seq<SupportTicket>)
    ensures forall t :: t in r <==> t in tickets && t.tenantId == tenantId
    ensures multiset(r) == multiset(Where(tickets, (t: SupportTicket) => t.tenantId == tenantId))
    ensures forall i, j :: 0 <= i < j < |r| ==> r[i].createdAt >= r[j].createdAt
  {
    var own := Where(tickets, (t: SupportTicket) => t.tenantId == tenantId);
    SortBySorted(own, NewestFirstKey);
    var r := SortBy(own, NewestFirstKey);
    NewestFirstOrder(r);
    r
  }

  /** `GetByIdAsync(id, tenantId)`: a ticket of another tenant is not found. */
  function GetById(tickets: seq<SupportTicket>, id: Uuid, tenantId: Uuid): (r: Option<SupportTicket>)
    ensures r.Some? ==> r.value in tickets && r.value.id == id && r.value.tenantId == tenantId
    ensures r.None? <==> forall t :: t in tickets ==> t.id != id || t.tenantId != tenantId
  {
    FirstOrDefault(tickets, (t: SupportTicket) => t.id == id && t.tenantId == tenantId)
  }

  /** The replies of one ticket, the earliest written first. */
  function RepliesOf(replies: seq<SupportTicketReply>, ticketId: Uuid): (r: seq<SupportTicketReply>)
    ensures forall x :: x in r <==> x in replies && x.supportTicketId == ticketId
    ensures multiset(r) == multiset(Where(replies, (x: SupportTicketReply) => x.supportTicketId == ticketId))
    ensures forall i, j :: 0 <= i < j < |r| ==> r[i].createdAt <= r[j].createdAt
  {
    var own := Where(replies, (x: SupportTicketReply) => x.supportTicketId == ticketId);
    SortBySorted(own, OldestFirstKey);
    var r := SortBy(own, OldestFirstKey);
    OldestFirstOrder(r);
    r
  }

  /** A ticket together with its `Replies` navigation. */
  datatype TicketWithReplies = TicketWithReplies(ticket: SupportTicket, replies: seq<SupportTicketReply>)

  /** `GetByIdWithRepliesAsync`. */
  function GetByIdWithReplies(tickets: seq<SupportTicket>, replies: seq<SupportTicketReply>, id: Uuid, tenantId: Uuid)
    : (r: Option<TicketWithReplies>)
    ensures r.None? <==> GetById(tickets, id, tenantId).None?
    ensures r.Some? ==> Some(r.value.ticket) == GetById(tickets, id, tenantId)
    ensures r.Some? ==> r.value.replies == RepliesOf(replies, id)
  {
    match GetById(tickets, id, tenantId)
    case None => None
    case Some(t) => Some(TicketWithReplies(t, RepliesOf(replies, t.id)))
  }

  /** `AddAsync`: the row is stored and handed back as given. */
  method AddTicket(db: HoneydewDb, ticket: SupportTicket) returns (stored: SupportTicket)
    requires db.Valid()
    requires forall t :: t in db.supportTickets ==> t.id != ticket.id
    modifies db`supportTickets
    ensures db.Valid()
    ensures db.supportTickets == old(db.supportTickets) + [ticket]
    ensures stored == ticket
  {
    var s := db.supportTickets + [ticket];
    forall i, j | 0 <= i < j < |s|
      ensures s[i].id != s[j].id
    {
      if j == |db.supportTickets| {
        assert s[i] in db.supportTickets;
      }
    }
    db.supportTickets := s;
    stored := ticket;
  }

  /** `AddReplyAsync`: the row is stored and handed back as given. */
  method AddReply(db: HoneydewDb, reply: SupportTicketReply) returns (stored: SupportTicketReply)
    requires db.Valid()
    requires forall x :: x in db.supportTicketReplies ==> x.id != reply.id
    modifies db`supportTicketReplies
    ensures db.Valid()
    ensures db.supportTicketReplies == old(db.supportTicketReplies) + [reply]
    ensures stored == reply
  {
    var s := db.supportTicketReplies + [reply];
    forall i, j | 0 <= i < j < |s|
      ensures s[i].id != s[j].id
    {
      if j == |db.supportTicketReplies| {
        assert s[i] in db.supportTicketReplies;
      }
    }
    db.supportTicketReplies := s;
    stored := reply;
  }

  /** A stored reply is listed with its ticket. */
  lemma AddedReplyIsListed(replies: seq<SupportTicketReply>, reply: SupportTicketReply)
    ensures reply in RepliesOf(replies + [reply], reply.supportTicketId)
    ensures forall x :: x in RepliesOf(replies, reply.supportTicketId) ==> x in RepliesOf(replies + [reply], reply.supportTicketId)
  {
    assert reply in replies + [reply];
    assert forall x :: x in replies ==> x in replies + [reply];
  }

  /** A tracked edit of the ticket keyed `t.id` after `SaveChanges`. */
  function ReplaceTicket(tickets: seq<SupportTicket>, t: SupportTicket): (r: seq<SupportTicket>)
    ensures |r| == |tickets|
    ensures forall i :: 0 <= i < |tickets| ==> r[i] == if tickets[i].id == t.id then t else tickets[i]
  {
    Select(tickets, (x: SupportTicket) => if x.id == t.id then t else x)
  }

  /** Replacing a ticket by one with the same key and tenant keeps the keys unique and is found again. */
  lemma ReplaceTicketFinds(tickets: seq<SupportTicket>, k: nat, t: SupportTicket)
    requires UniqueTicketIds(tickets) && k < |tickets| && tickets[k].id == t.id
    ensures UniqueTicketIds(ReplaceTicket(tickets, t))
    ensures GetById(ReplaceTicket(tickets, t), t.id, t.tenantId) == Some(t)
  {
    var r := ReplaceTicket(tickets, t);
    var found := GetById(r, t.id, t.tenantId).value;
    var j :| 0 <= j < |r| && r[j] == found;
    assert r[k] == t;
  }

  /** `UpdateStatusAsync`: false when the tenant has no such ticket; otherwise only the status and `UpdatedAt` change. */
  method UpdateStatus(db: HoneydewDb, id: Uuid, tenantId: Uuid, status: string, now: DateTime) returns (updated: bool)
    requires db.Valid()
    modifies db`supportTickets
    ensures db.Valid()
    ensures updated <==> GetById(old(db.supportTickets), id, tenantId).Some?
    ensures !updated ==> db.supportTickets == old(db.supportTickets)
    ensures updated ==>
      var t := GetById(old(db.supportTickets), id, tenantId).value;
      var edited := SupportTicket(t.id, t.tenantId, t.subject, t.body, status, t.createdAt, Some(now));
      && db.supportTickets == ReplaceTicket(old(db.supportTickets), edited)
      && GetById(db.supportTickets, id, tenantId) == Some(edited)
  {
    var k := IndexWhere(db.supportTickets, (t: SupportTicket) => t.id == id && t.tenantId == tenantId);
    if k.None? {
      return false;
    }
    var t := db.supportTickets[k.value];
    var edited := SupportTicket(t.id, t.tenantId, t.subject, t.body, status, t.createdAt, Some(now));
    ReplaceTicketFinds(db.supportTickets, k.value, edited);
    db.supportTickets := ReplaceTicket(db.supportTickets, edited);
    return true;
  }
}

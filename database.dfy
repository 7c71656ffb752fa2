/**
 * The household store (`HoneydewDbContext`): one field per table. Rows are
 * values; an update of a tracked entity followed by `SaveChanges` replaces
 * the row. `Valid` states the primary keys and unique indexes the context
 * declares.
 */
module Database {
  import opened Wrappers
  import opened Entities

  predicate UniqueTenantIds(ts: seq<Tenant>) {
    forall i, j :: 0 <= i < j < |ts| ==> ts[i].id != ts[j].id
  }

  predicate UniqueUserIds(us: seq<User>) {
    forall i, j :: 0 <= i < j < |us| ==> us[i].id != us[j].id
  }

  /** The unique index on (TenantId, Email). */
  predicate UniqueEmailPerTenant(us: seq<User>) {
    forall i, j :: 0 <= i < j < |us| ==> us[i].tenantId != us[j].tenantId || us[i].email != us[j].email
  }

  predicate UniqueApiClients(cs: seq<ApiClient>) {
    forall i, j :: 0 <= i < j < |cs| ==> cs[i].id != cs[j].id && cs[i].clientId != cs[j].clientId
  }

  predicate UniqueTodoIds(ts: seq<TodoItem>) {
    forall i, j :: 0 <= i < j < |ts| ==> ts[i].id != ts[j].id
  }

  /** Plans are keyed by id and have a unique `Code`. */
  predicate UniquePlans(ps: seq<BillingPlan>) {
    forall i, j :: 0 <= i < j < |ps| ==> ps[i].id != ps[j].id && ps[i].code != ps[j].code
  }

  predicate UniqueTicketIds(ts: seq<SupportTicket>) {
    forall i, j :: 0 <= i < j < |ts| ==> ts[i].id != ts[j].id
  }

  predicate UniqueReplyIds(rs: seq<SupportTicketReply>) {
    forall i, j :: 0 <= i < j < |rs| ==> rs[i].id != rs[j].id
  }

  /** Preferences are keyed by `UserId`. */
  predicate PrefsKeyed(ps: map<Uuid, UserPreference>) {
    forall k :: k in ps ==> ps[k].userId == k
  }

  /** Is some user of `us` the id `id`? */
  predicate HasUserId(us: seq<User>, id: Uuid) {
    exists u :: u in us && u.id == id
  }

  class HoneydewDb {
    var tenants: seq<Tenant>
    var users: seq<User>
    var apiClients: seq<ApiClient>
    var todoItems: seq<TodoItem>
    /** Keyed by (TodoItemId, UserId), which is the whole row. */
    var todoItemVotes: set<TodoItemVote>
    var billingPlans: seq<BillingPlan>
    var supportTickets: seq<SupportTicket>
    var supportTicketReplies: seq<SupportTicketReply>
    var userPreferences: map<Uuid, UserPreference>

    predicate Valid()
      reads this
    {
      && UniqueTenantIds(tenants)
      && UniqueUserIds(users)
      && UniqueEmailPerTenant(users)
      && UniqueApiClients(apiClients)
      && UniqueTodoIds(todoItems)
      && UniquePlans(billingPlans)
      && UniqueTicketIds(supportTickets)
      && UniqueReplyIds(supportTicketReplies)
      && PrefsKeyed(userPreferences)
    }

    /** An empty store. */
    constructor ()
      ensures Valid()
      ensures tenants == [] && users == [] && apiClients == [] && todoItems == []
      ensures todoItemVotes == {} && billingPlans == [] && supportTickets == []
      ensures supportTicketReplies == [] && userPreferences == map[]
    {
      tenants, users, apiClients, todoItems := [], [], [], [];
      todoItemVotes, billingPlans, supportTickets := {}, [], [];
      supportTicketReplies, userPreferences := [], map[];
    }
  }
}

/**
 * `TenantDataAccess`: tenant lookups (any, or only active ones), the tenant's
 * head count, billing plans by code, and the two tenant edits (rename, pick a
 * billing plan).
 */
module TenantData {
  import opened Wrappers
  import opened Entities
  import opened Strings
  import opened Linq
  import opened Database

  /** `FindAsync(tenantId)`. */
  function GetById(tenants: seq<Tenant>, tenantId: Uuid): (r: Option<Tenant>)
    ensures r.Some? ==> r.value in tenants && r.value.id == tenantId
    ensures r.None? <==> forall t :: t in tenants ==> t.id != tenantId
  {
    FirstOrDefault(tenants, (t: Tenant) => t.id == tenantId)
  }

  /** `GetActiveByIdAsync`: the tenant, when it exists and is active. */
  function GetActiveById(tenants: seq<Tenant>, tenantId: Uuid): (r: Option<Tenant>)
    ensures r.Some? ==> r.value in tenants && r.value.id == tenantId && r.value.isActive
    ensures r.None? <==> forall t :: t in tenants ==> t.id != tenantId || !t.isActive
  {
    FirstOrDefault(tenants, (t: Tenant) => t.id == tenantId && t.isActive)
  }

  /** With unique keys, the active lookup is the plain lookup restricted to active tenants. */
  lemma GetActiveIsGetById(tenants: seq<Tenant>, tenantId: Uuid)
    requires UniqueTenantIds(tenants)
    ensures GetActiveById(tenants, tenantId) ==
      if GetById(tenants, tenantId).Some? && GetById(tenants, tenantId).value.isActive then GetById(tenants, tenantId) else None
  {
    var a, b := GetActiveById(tenants, tenantId), GetById(tenants, tenantId);
    if a.Some? && b.Some? {
      var i :| 0 <= i < |tenants| && tenants[i] == a.value;
      var j :| 0 <= j < |tenants| && tenants[j] == b.value;
      assert i == j;
    }
  }

  /** `GetUserCountAsync`: every user of the tenant, active or not. */
  function GetUserCount(users: seq<User>, tenantId: Uuid): (r: nat)
    ensures r == |Where(users, (u: User) => u.tenantId == tenantId)|
    ensures r == 0 <==> forall u :: u in users ==> u.tenantId != tenantId
  {
    Count(users, (u: User) => u.tenantId == tenantId)
  }

  /** `GetBillingPlanByCodeAsync`. */
  function GetBillingPlanByCode(plans: seq<BillingPlan>, code: string): (r: Option<BillingPlan>)
    ensures r.Some? ==> r.value in plans && r.value.code == code
    ensures r.None? <==> forall p :: p in plans ==> p.code != code
  {
    FirstOrDefault(plans, (p: BillingPlan) => p.code == code)
  }

  /** The plan a tenant's `BillingPlanId` refers to (`Include(t => t.BillingPlan)`). */
  function PlanOf(plans: seq<BillingPlan>, t: Tenant): (r: Option<BillingPlan>)
    ensures t.billingPlanId.None? ==> r.None?
    ensures r.Some? ==> r.value in plans && Some(r.value.id) == t.billingPlanId
    ensures t.billingPlanId.Some? && (exists p :: p in plans && p.id == t.billingPlanId.value) ==> r.Some?
  {
    if t.billingPlanId.None? then None
    else FirstOrDefault(plans, (p: BillingPlan) => p.id == t.billingPlanId.value)
  }

  /** A tracked edit of the tenant keyed `t.id` after `SaveChanges`. */
  function ReplaceTenant(tenants: seq<Tenant>, t: Tenant): (r: seq<Tenant>)
    ensures |r| == |tenants|
    ensures forall i :: 0 <= i < |tenants| ==> r[i] == if tenants[i].id == t.id then t else tenants[i]
  {
    Select(tenants, (x: Tenant) => if x.id == t.id then t else x)
  }

  /** Replacing a tenant by one with the same key keeps the keys unique and is found again by its key. */
  lemma ReplaceTenantFinds(tenants: seq<Tenant>, k: nat, t: Tenant)
    requires UniqueTenantIds(tenants) && k < |tenants| && tenants[k].id == t.id
    ensures UniqueTenantIds(ReplaceTenant(tenants, t))
    ensures GetById(ReplaceTenant(tenants, t), t.id) == Some(t)
  {
    var r := ReplaceTenant(tenants, t);
    var found := GetById(r, t.id).value;
    var j :| 0 <= j < |r| && r[j] == found;
    assert r[k] == t;
  }

  /** `SaveChangesAsync` after an edit of the tracked tenant at index `k`. */
  method SaveTenant(db: HoneydewDb, k: nat, edited: Tenant)
    requires db.Valid() && k < |db.tenants| && db.tenants[k].id == edited.id
    modifies db`tenants
    ensures db.Valid()
    ensures db.tenants == ReplaceTenant(old(db.tenants), edited)
    ensures GetById(db.tenants, edited.id) == Some(edited)
  {
    ReplaceTenantFinds(db.tenants, k, edited);
    db.tenants := ReplaceTenant(db.tenants, edited);
  }

  /** `UpdateNameAsync`: false when there is no such tenant; otherwise the trimmed name is stored. */
  method UpdateName(db: HoneydewDb, tenantId: Uuid, name: string) returns (updated: bool)
    requires db.Valid()
    modifies db`tenants
    ensures db.Valid()
    ensures updated <==> GetById(old(db.tenants), tenantId).Some?
    ensures !updated ==> db.tenants == old(db.tenants)
    ensures updated ==>
      var t := GetById(old(db.tenants), tenantId).value;
      db.tenants == ReplaceTenant(old(db.tenants), t.(name := Trim(name)))
      && GetById(db.tenants, tenantId) == Some(t.(name := Trim(name)))
  {
    var k := IndexWhere(db.tenants, (t: Tenant) => t.id == tenantId);
    if k.None? {
      return false;
    }
    var t := db.tenants[k.value];
    SaveTenant(db, k.value, t.(name := Trim(name)));
    return true;
  }

  /** `SetBillingPlanIdAsync`: false when there is no such tenant; otherwise the plan reference is replaced. */
  method SetBillingPlanId(db: HoneydewDb, tenantId: Uuid, billingPlanId: Option<Uuid>) returns (updated: bool)
    requires db.Valid()
    modifies db`tenants
    ensures db.Valid()
    ensures updated <==> GetById(old(db.tenants), tenantId).Some?
    ensures !updated ==> db.tenants == old(db.tenants)
    ensures updated ==>
      var t := GetById(old(db.tenants), tenantId).value;
      db.tenants == ReplaceTenant(old(db.tenants), t.(billingPlanId := billingPlanId))
      && GetById(db.tenants, tenantId) == Some(t.(billingPlanId := billingPlanId))
  {
    var k := IndexWhere(db.tenants, (t: Tenant) => t.id == tenantId);
    if k.None? {
      return false;
    }
    var t := db.tenants[k.value];
    SaveTenant(db, k.value, t.(billingPlanId := billingPlanId));
    return true;
  }
}

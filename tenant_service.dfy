/**
 * `TenantService`: the household's own record as the API shows it (with its
 * billing plan, falling back to the "Free" plan when none is chosen, and its
 * head count), renaming and choosing a plan.
 */
module TenantService {
  import opened Wrappers
  import opened Entities
  import opened Strings
  import opened Database
  import opened TenantData

  datatype TenantResponse = TenantResponse(
    id: Uuid,
    name: string,
    createdAt: DateTime,
    billingPlanId: Option<Uuid>,
    billingPlanName: Option<string>,
    billingPlanCode: Option<string>,
    billingPlanMaxUsers: Option<int>,
    userCount: int)

  const FreePlanCode: string := "Free"

  /** The plan shown for a tenant: its own, else the plan coded "Free" when there is one. */
  function ShownPlan(plans: seq<BillingPlan>, t: Tenant): (r: Option<BillingPlan>)
    ensures r.Some? ==> r.value in plans
    ensures PlanOf(plans, t).Some? ==> r == PlanOf(plans, t)
    ensures PlanOf(plans, t).None? ==> r == GetBillingPlanByCode(plans, FreePlanCode)
  {
    match PlanOf(plans, t)
    case Some(p) => Some(p)
    case None => GetBillingPlanByCode(plans, FreePlanCode)
  }

  /** `GetTenantAsync`: nothing for a missing or inactive tenant. */
  function GetTenant(tenants: seq<Tenant>, users: seq<User>, plans: seq<BillingPlan>, tenantId: Uuid): (r: Option<TenantResponse>)
    ensures r.None? <==> GetActiveById(tenants, tenantId).None?
    ensures r.Some? ==>
      var t := GetActiveById(tenants, tenantId).value;
      var shown := ShownPlan(plans, t);
      && r.value.id == tenantId && r.value.name == t.name
      && r.value.createdAt == t.createdAt
      && r.value.billingPlanId == t.billingPlanId
      && r.value.billingPlanName == (if shown.Some? then Some(shown.value.name) else None)
      && r.value.billingPlanCode == (if shown.Some? then Some(shown.value.code) else None)
      && r.value.billingPlanMaxUsers == (if shown.Some? then Some(shown.value.maxUsers) else None)
      && r.value.userCount == GetUserCount(users, tenantId)
      && (r.value.billingPlanCode.None? <==> PlanOf(plans, t).None? && (forall p :: p in plans ==> p.code != FreePlanCode))
      && (PlanOf(plans, t).Some? ==> r.value.billingPlanCode == Some(PlanOf(plans, t).value.code))
      && (PlanOf(plans, t).None? && r.value.billingPlanCode.Some? ==> r.value.billingPlanCode == Some(FreePlanCode))
  {
    match GetActiveById(tenants, tenantId)
    case None => None
    case Some(t) =>
      var plan := ShownPlan(plans, t);
      Some(TenantResponse(t.id, t.name, t.createdAt, t.billingPlanId,
        if plan.Some? then Some(plan.value.name) else None,
        if plan.Some? then Some(plan.value.code) else None,
        if plan.Some? then Some(plan.value.maxUsers) else None,
        GetUserCount(users, tenantId)))
  }

  /**
   * A tenant without a plan is shown with the "Free" plan's name and code,
   * while its `BillingPlanId` stays empty.
   */
  lemma FreeFallbackKeepsIdEmpty(tenants: seq<Tenant>, users: seq<User>, plans: seq<BillingPlan>, tenantId: Uuid, free: BillingPlan)
    requires UniquePlans(plans)
    requires GetActiveById(tenants, tenantId).Some? && GetActiveById(tenants, tenantId).value.billingPlanId.None?
    requires free in plans && free.code == FreePlanCode
    ensures GetTenant(tenants, users, plans, tenantId).value.billingPlanId.None?
    ensures GetTenant(tenants, users, plans, tenantId).value.billingPlanName == Some(free.name)
  {
    var p := GetBillingPlanByCode(plans, FreePlanCode).value;
    var i :| 0 <= i < |plans| && plans[i] == p;
    var j :| 0 <= j < |plans| && plans[j] == free;
    assert i == j;
  }

  /** `UpdateNameAsync`: a blank name is refused; otherwise the trimmed name is stored. */
  method UpdateName(db: HoneydewDb, tenantId: Uuid, name: string) returns (updated: bool)
    requires db.Valid()
    modifies db`tenants
    ensures db.Valid()
    ensures updated <==> !IsBlank(name) && GetById(old(db.tenants), tenantId).Some?
    ensures !updated ==> db.tenants == old(db.tenants)
    ensures updated ==>
      var t := GetById(old(db.tenants), tenantId).value;
      && db.tenants == ReplaceTenant(old(db.tenants), t.(name := Trim(name)))
      && GetById(db.tenants, tenantId) == Some(t.(name := Trim(name)))
      && Trim(name) != []
  {
    if IsNullOrWhiteSpace(Some(name)) {
      return false;
    }
    TrimIdempotent(name);
    TrimEmptyIffBlank(name);
    updated := TenantData.UpdateName(db, tenantId, Trim(name));
  }

  /** `UpdateBillingPlanAsync`: the plan reference is replaced as given. */
  method UpdateBillingPlan(db: HoneydewDb, tenantId: Uuid, billingPlanId: Option<Uuid>) returns (updated: bool)
    requires db.Valid()
    modifies db`tenants
    ensures db.Valid()
    ensures updated <==> GetById(old(db.tenants), tenantId).Some?
    ensures !updated ==> db.tenants == old(db.tenants)
    ensures updated ==>
      var t := GetById(old(db.tenants), tenantId).value;
      && db.tenants == ReplaceTenant(old(db.tenants), t.(billingPlanId := billingPlanId))
      && GetById(db.tenants, tenantId) == Some(t.(billingPlanId := billingPlanId))
  {
    updated := SetBillingPlanId(db, tenantId, billingPlanId);
  }
}

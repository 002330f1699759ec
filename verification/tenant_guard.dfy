/** The navigation guard of registry/features/tenantFeat/guards/tenantGuard.ts:
    routes that need a tenant context send a user without one to the
    tenant selection route. */
module TenantGuard {
  import opened Wrappers
  import opened Routing

  /** `TenantRouteNames.selectTenant`. */
  const SelectTenantName := "SelectTenant"

  /** The decision for `to`, given the tenant store's `currentTenantId`. */
  function TenantGuard(to: Route, currentTenantId: Option<string>): (nav: Navigation)
    ensures nav == Proceed || nav == ToName(SelectTenantName, Some(to.fullPath))
  {
    if !RequiresTenant(to) then Proceed
    else if !Truthy(currentTenantId) then ToName(SelectTenantName, Some(to.fullPath))
    else Proceed
  }

  /** A route that needs no tenant passes whatever the store holds; one
      that needs a tenant passes exactly when the store has a non-empty
      tenant id, and is otherwise sent to tenant selection with
      `redirectTo`. */
  lemma TenantDecisions(to: Route, currentTenantId: Option<string>, otherTenantId: Option<string>)
    ensures !RequiresTenant(to) ==>
      TenantGuard(to, currentTenantId) == Proceed && TenantGuard(to, currentTenantId) == TenantGuard(to, otherTenantId)
    ensures RequiresTenant(to) ==>
      (TenantGuard(to, currentTenantId) == Proceed <==> Truthy(currentTenantId))
    ensures RequiresTenant(to) && !Truthy(currentTenantId) ==>
      TenantGuard(to, currentTenantId) == ToName(SelectTenantName, Some(to.fullPath))
  {
  }

  /** A tenant-requiring record anywhere in the match makes the route
      require a tenant, so a nested child route is guarded too. */
  lemma RequirementFromRecords(to: Route, meta: RouteMeta)
    requires meta.requiresTenant
    ensures RequiresTenant(to.(matched := to.matched + [meta]))
    ensures RequiresTenant(to.(matched := [meta] + to.matched))
  {
    var to' := to.(matched := to.matched + [meta]);
    assert to'.matched[|to.matched|].requiresTenant;
    assert ([meta] + to.matched)[0].requiresTenant;
  }
}

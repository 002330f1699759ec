/** What the route guards see of a navigation and what they hand to
    `next`: the target's path, full path and the `meta` flags of its
    matched records, and one navigation decision. A guard is a function
    returning that decision, so `next` is called exactly once on every
    branch. */
module Routing {
  import opened Wrappers

  /** The `meta` flags a matched route record may set; an unset flag is
      false. */
  datatype RouteMeta = RouteMeta(requiresAuth: bool, requiresGuest: bool, requiresTenant: bool)

  datatype Route = Route(path: string, fullPath: string, matched: seq<RouteMeta>)

  /** The argument of the `next` call: none, a path, or a route name, the
      last two with an optional `redirectTo` query. */
  datatype Navigation =
    | Proceed
    | ToPath(path: string, redirectTo: Option<string>)
    | ToName(name: string, redirectTo: Option<string>)

  /** `to.matched.some(r => r.meta.requiresAuth)` and its siblings. */
  predicate RequiresAuth(to: Route) {
    exists i :: 0 <= i < |to.matched| && to.matched[i].requiresAuth
  }

  predicate RequiresGuest(to: Route) {
    exists i :: 0 <= i < |to.matched| && to.matched[i].requiresGuest
  }

  predicate RequiresTenant(to: Route) {
    exists i :: 0 <= i < |to.matched| && to.matched[i].requiresTenant
  }

  /** JavaScript truthiness of a nullable string. */
  predicate Truthy(s: Option<string>) {
    s.Some? && s.value != ""
  }
}

/** Route patterns and the secondary page actions of
    `src/lib/utils/actions.svelte.ts`. A route is one pattern or a list
    of patterns; a pattern is `none`, `*`, a prefix ending in `*`, or an
    exact route id, and a leading `!` marks a pattern that blocks. */
module PageActions {
  import opened Wrappers
  import opened JsString
  import opened Types

  const NONE := "none"
  const ALL := "*"

  /** `negate(r)`: swaps the two special symbols, and marks any other
      pattern as blocking. */
  function Negate(r: string): (n: string)
    ensures r == NONE ==> n == ALL
    ensures r == ALL ==> n == NONE
    ensures r != NONE && r != ALL ==> |n| == |r| + 1 && n[0] == '!' && n[1..] == r
  {
    if r == NONE then ALL
    else if r == ALL then NONE
    else "!" + r
  }

  const ROUTE_ALL_APP := "/app*"
  const ROUTE_APP := "/app"
  const ROUTE_ACCOUNT := "/app/account"
  const ROUTE_SETTINGS := "/app/account/settings"
  const ROUTE_ADMIN := "/app/admin"
  const ROUTE_HOME := "/"
  const ROUTE_LOGIN := "/auth/log-in"
  const ROUTE_SIGNUP := "/auth/sign-up"
  const ROUTE_FORGOT_PASSWORD := "/auth/forgot-password"
  const ROUTE_RESET_PASSWORD := "/auth/forgot-password/reset"
  const ROUTE_NOT_APP := Negate(ROUTE_ALL_APP)

  /** The pattern with one leading `!` removed. */
  function Unmarked(pattern: string): (p: string)
    ensures StartsWith(pattern, "!") ==> pattern == "!" + p
    ensures !StartsWith(pattern, "!") ==> p == pattern
  {
    if StartsWith(pattern, "!") then pattern[1..] else pattern
  }

  /** `matchesPattern(pattern, path)`. */
  function MatchesPattern(pattern: string, path: string): (r: bool)
    ensures Unmarked(pattern) == NONE ==> !r
    ensures Unmarked(pattern) == ALL ==> r
  {
    var p := Unmarked(pattern);
    if p == NONE then false
    else if p == ALL then true
    else if EndsWith(p, "*") then StartsWith(path, p[..|p| - 1])
    else p == path
  }

  /** A pattern ending in `*` matches exactly the paths that start with
      what precedes the `*`. */
  lemma WildcardMatchesPrefix(base: string, path: string)
    requires !StartsWith(base, "!")
    ensures MatchesPattern(base + "*", path) <==> StartsWith(path, base)
  {
    var p := base + "*";
    assert p[..|p| - 1] == base;
    assert EndsWith(p, "*");
    StartsWithChar(p, '!');
    StartsWithChar(base, '!');
    assert |base| > 0 ==> p[0] == base[0];
  }

  /** Any other ordinary pattern matches only the identical path. */
  lemma ExactPatternMatchesItself(pattern: string, path: string)
    requires !StartsWith(pattern, "!") && pattern != NONE && pattern != ALL
    requires !EndsWith(pattern, "*")
    ensures MatchesPattern(pattern, path) <==> pattern == path
  {
  }

  /** `negate` turns the special symbols into each other's complement,
      but leaves what an ordinary pattern matches unchanged: the `!` is
      read by `isActionApplicable`, not by `matchesPattern`. */
  lemma NegateAndMatch(pattern: string, path: string)
    requires !StartsWith(pattern, "!")
    ensures pattern == NONE || pattern == ALL ==>
              MatchesPattern(Negate(pattern), path) == !MatchesPattern(pattern, path)
    ensures pattern != NONE && pattern != ALL ==>
              MatchesPattern(Negate(pattern), path) == MatchesPattern(pattern, path)
  {
    if pattern != NONE && pattern != ALL {
      assert StartsWith(Negate(pattern), "!");
      assert Unmarked(Negate(pattern)) == pattern;
    }
  }

  // --------------------------------------------------------------- actions

  datatype Route = Single(pattern: string) | Many(patterns: seq<string>)

  /** An action; the icon and click handler do not affect applicability. */
  datatype Action = Action(route: Route, text: string, href: Option<string>, guard: Option<User -> bool>)

  /** `action.if ? action.if(user) : true`. */
  function GuardHolds(a: Action, user: User): bool {
    a.guard.None? || a.guard.value(user)
  }

  function IsBlocking(pattern: string): bool {
    StartsWith(pattern, "!")
  }

  /** Some `!` entry matches the path. */
  function SomeBlocks(patterns: seq<string>, path: string): (r: bool)
    ensures r <==> exists i :: 0 <= i < |patterns| && IsBlocking(patterns[i]) && MatchesPattern(patterns[i], path)
  {
    if |patterns| == 0 then false
    else (IsBlocking(patterns[0]) && MatchesPattern(patterns[0], path)) || SomeBlocks(patterns[1..], path)
  }

  /** Some plain entry matches the path. */
  function SomeAllows(patterns: seq<string>, path: string): (r: bool)
    ensures r <==> exists i :: 0 <= i < |patterns| && !IsBlocking(patterns[i]) && MatchesPattern(patterns[i], path)
  {
    if |patterns| == 0 then false
    else (!IsBlocking(patterns[0]) && MatchesPattern(patterns[0], path)) || SomeAllows(patterns[1..], path)
  }

  /** `isActionApplicable(action, user, path)`. */
  function IsActionApplicable(a: Action, user: User, path: string): (r: bool)
    ensures a.route == Single(NONE) ==> !r
    ensures a.route == Single(ALL) ==> r
    ensures a.route.Single? && a.route.pattern != NONE && a.route.pattern != ALL ==>
              (r <==> MatchesPattern(a.route.pattern, path) && GuardHolds(a, user))
    ensures a.route.Many? ==>
              (r <==> && GuardHolds(a, user)
                      && (forall i :: 0 <= i < |a.route.patterns| && IsBlocking(a.route.patterns[i]) ==>
                            !MatchesPattern(a.route.patterns[i], path))
                      && (exists i :: 0 <= i < |a.route.patterns| && !IsBlocking(a.route.patterns[i]) &&
                            MatchesPattern(a.route.patterns[i], path)))
  {
    match a.route
    case Single(p) =>
      if p == NONE then false
      else if p == ALL then true
      else MatchesPattern(p, path) && GuardHolds(a, user)
    case Many(ps) =>
      if SomeBlocks(ps, path) && GuardHolds(a, user) then false
      else SomeAllows(ps, path) && GuardHolds(a, user)
  }

  /** The `pageActions` list: Account, Settings, and Admin for admins. */
  function PageActionList(isRoleAbove: RoleCheck): seq<Action>
  {
    [ Action(Many([ROUTE_ALL_APP, Negate(ROUTE_ACCOUNT)]), "Account", Some(ROUTE_ACCOUNT), None),
      Action(Many([ROUTE_ALL_APP, Negate(ROUTE_SETTINGS)]), "Settings", Some(ROUTE_SETTINGS), None),
      Action(Many([ROUTE_ALL_APP, Negate(ROUTE_ADMIN)]), "Admin", Some(ROUTE_ADMIN),
             Some((u: User) => isRoleAbove(u.role, "admin"))) ]
  }

  /** Positions, in increasing order, of the applicable actions from `from` on. */
  function ApplicableIndices(actions: seq<Action>, user: User, path: string, from: nat): (r: seq<nat>)
    requires from <= |actions|
    ensures forall k :: 0 <= k < |r| ==> from <= r[k] < |actions|
    ensures forall k, l :: 0 <= k < l < |r| ==> r[k] < r[l]
    ensures forall i :: from <= i < |actions| ==> (i in r <==> IsActionApplicable(actions[i], user, path))
    decreases |actions| - from
  {
    if from == |actions| then []
    else
      var rest := ApplicableIndices(actions, user, path, from + 1);
      if IsActionApplicable(actions[from], user, path) then [from] + rest else rest
  }

  /** `page.route.id || '/'`. */
  function CurrentPath(routeId: Option<string>): (p: string)
    ensures routeId.Some? && routeId.value != "" ==> p == routeId.value
    ensures routeId.None? || routeId.value == "" ==> p == ROUTE_HOME
  {
    if routeId.Some? && routeId.value != "" then routeId.value else ROUTE_HOME
  }

  /** `getPageActions()`: the applicable actions, in their list order. */
  function GetPageActions(actions: seq<Action>, user: User, routeId: Option<string>): (r: seq<Action>)
    ensures |r| <= |actions|
    ensures forall k :: 0 <= k < |r| ==> IsActionApplicable(r[k], user, CurrentPath(routeId))
    ensures |r| == |ApplicableIndices(actions, user, CurrentPath(routeId), 0)|
    ensures forall k :: 0 <= k < |r| ==> r[k] == actions[ApplicableIndices(actions, user, CurrentPath(routeId), 0)[k]]
  {
    var idx := ApplicableIndices(actions, user, CurrentPath(routeId), 0);
    IndicesBounded(idx, |actions|);
    seq(|idx|, k requires 0 <= k < |idx| => actions[idx[k]])
  }

  /** A strictly increasing sequence of positions below `n` has at most `n` entries. */
  lemma {:induction false} IndicesBounded(idx: seq<nat>, n: nat)
    requires forall k :: 0 <= k < |idx| ==> idx[k] < n
    requires forall k, l :: 0 <= k < l < |idx| ==> idx[k] < idx[l]
    ensures |idx| <= n
    decreases n
  {
    if |idx| > 0 {
      var init := idx[..|idx| - 1];
      assert forall k :: 0 <= k < |init| ==> init[k] < idx[|idx| - 1] <= n - 1;
      IndicesBounded(init, n - 1);
    }
  }

  /** Each page action is routed `[allApp, negate(target)]`: it applies
      on every `/app` page except its own target, when its guard holds. */
  lemma AppActionExceptTarget(a: Action, target: string, user: User, path: string)
    requires a.route == Many([ROUTE_ALL_APP, Negate(target)])
    requires !StartsWith(target, "!") && target != NONE && target != ALL && !EndsWith(target, "*")
    ensures IsActionApplicable(a, user, path) <==> StartsWith(path, ROUTE_APP) && path != target && GuardHolds(a, user)
  {
    var ps := a.route.patterns;
    assert ROUTE_ALL_APP == ROUTE_APP + "*";
    WildcardMatchesPrefix(ROUTE_APP, path);
    NegateAndMatch(target, path);
    ExactPatternMatchesItself(target, path);
    assert StartsWith(Negate(target), "!");
    assert !IsBlocking(ps[0]) && IsBlocking(ps[1]);
  }

  /** On the account page, Account is hidden, Settings is shown, and Admin
      is shown exactly to admins. */
  lemma AccountPageActions(isRoleAbove: RoleCheck, user: User)
    ensures var acts := PageActionList(isRoleAbove);
            && !IsActionApplicable(acts[0], user, ROUTE_ACCOUNT)
            && IsActionApplicable(acts[1], user, ROUTE_ACCOUNT)
            && (IsActionApplicable(acts[2], user, ROUTE_ACCOUNT) <==> isRoleAbove(user.role, "admin"))
  {
    var acts := PageActionList(isRoleAbove);
    assert StartsWith(ROUTE_ACCOUNT, ROUTE_APP);
    AppActionExceptTarget(acts[0], ROUTE_ACCOUNT, user, ROUTE_ACCOUNT);
    AppActionExceptTarget(acts[1], ROUTE_SETTINGS, user, ROUTE_ACCOUNT);
    AppActionExceptTarget(acts[2], ROUTE_ADMIN, user, ROUTE_ACCOUNT);
  }
}

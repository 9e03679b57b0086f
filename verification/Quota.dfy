/** Organizations, their members and the storage quota their owners share out
    (server/internal/handler/org.go, server/internal/handler/quota.go). */
module Quota {
  import opened Strings
  import opened Tables

  type User = string

  /** An org_quotas row. */
  datatype OrgQuota = OrgQuota(owner: User, limit: int)

  /** The tables, and who created each organization there has ever been (a
      history, not a table). `members` is keyed by its UNIQUE (organization_id,
      user_id), `orgs` by its UNIQUE slug. */
  datatype State = State(
    orgs: map<string, Id>, members: map<(Id, User), string>, quotas: map<Id, OrgQuota>,
    limits: map<User, int>, users: set<User>, next: Id, creators: map<Id, User>)

  const EMPTY := State(map[], map[], map[], map[], {}, 0, map[])

  predicate Lower(c: char) { 'a' <= c <= 'z' }
  predicate LowerOrDigit(c: char) { Lower(c) || '0' <= c <= '9' }

  predicate ValidSlug(s: string) {
    && 3 <= |s| <= 50 && Lower(s[0]) && LowerOrDigit(s[|s| - 1])
    && forall i :: 0 < i < |s| - 1 ==> LowerOrDigit(s[i]) || s[i] == '-'
  }

  /** The caller's role in the organization with this slug, if it is a member. */
  function RoleIn(s: State, user: User, slug: string): Option<string> {
    if slug in s.orgs && (s.orgs[slug], user) in s.members then Some(s.members[(s.orgs[slug], user)]) else None
  }

  /** SUM(quota_limit) over the rows with id below n that user owns. */
  function SumBelow(quotas: map<Id, OrgQuota>, user: User, n: nat): int {
    if n == 0 then 0
    else
      SumBelow(quotas, user, n - 1)
      + if n - 1 in quotas && quotas[n - 1].owner == user then quotas[n - 1].limit else 0
  }

  /** What userQuotaAllocated sums; every id in the table is below `next`. */
  function Allocated(s: State, user: User): int { SumBelow(s.quotas, user, s.next) }

  /** userQuotaLimit: 0, no limit, without a row. */
  function UserLimit(s: State, user: User): int { if user in s.limits then s.limits[user] else 0 }

  /** The SELECT SUM succeeds: SQLite's sum() fails when it overflows int64. */
  predicate Summable(s: State, user: User) { Allocated(s, user) <= MAX_INT64 }

  /** The int64 that Go's + leaves of this sum. */
  function Wrap64(x: int): (r: int)
    ensures -MAX_INT64 - 1 <= r <= MAX_INT64
  {
    (x + MAX_INT64 + 1) % 0x1_0000_0000_0000_0000 - MAX_INT64 - 1
  }

  function OrgLimit(s: State, o: Id): int { if o in s.quotas then s.quotas[o].limit else 0 }

  /** What organization o counts towards the user's allocations. */
  function ShareOf(s: State, o: Id, user: User): int {
    if o < s.next && o in s.quotas && s.quotas[o].owner == user then s.quotas[o].limit else 0
  }

  /** A request; the flags say whether the tenant database could be created or
      dropped, and whether the user is the last administrator. */
  datatype Op =
    | Register(user: User)
    | CreateOrg(user: User, name: string, slug: string, tenantOk: bool)
    | DeleteOrg(user: User, slug: string, tenantOk: bool)
    | AddMember(user: User, slug: string, newUser: User, role: string)
    | RemoveMember(user: User, slug: string, target: User)
    | UpdateMemberRole(user: User, slug: string, target: User, role: string)
    | SetOrgQuota(user: User, slug: string, limit: int)
    | AdminSetUserLimit(target: User, limit: int)
    | AdminDeleteUser(target: User, lastAdmin: bool)

  /** Whether the handler answers without an error. */
  predicate Accepts(s: State, op: Op) {
    match op
    case Register(user) => user != "" && user !in s.users
    case CreateOrg(user, name, slug, tenantOk) => name != "" && ValidSlug(slug) && slug !in s.orgs && tenantOk
    case DeleteOrg(user, slug, tenantOk) => RoleIn(s, user, slug) == Some("owner") && tenantOk
    case AddMember(user, slug, newUser, role) =>
      && RoleIn(s, user, slug) in {Some("owner"), Some("admin")} && newUser != ""
      && role in {"", "member", "admin"} && (s.orgs[slug], newUser) !in s.members
    case RemoveMember(user, slug, target) =>
      && RoleIn(s, user, slug) in {Some("owner"), Some("admin")}
      && !(target == user && RoleIn(s, user, slug) == Some("owner")) && (s.orgs[slug], target) in s.members
    case UpdateMemberRole(user, slug, target, role) =>
      RoleIn(s, user, slug) == Some("owner") && role in {"member", "admin"} && (s.orgs[slug], target) in s.members
    case SetOrgQuota(user, slug, limit) =>
      && 0 <= limit <= MAX_INT64 && RoleIn(s, user, slug) == Some("owner") && Summable(s, user)
      && (UserLimit(s, user) > 0 ==>
            Wrap64(Allocated(s, user) - OrgLimit(s, s.orgs[slug]) + limit) <= UserLimit(s, user))
    case AdminSetUserLimit(target, limit) =>
      && 0 <= limit <= MAX_INT64 && target in s.users && Summable(s, target)
      && (limit > 0 ==> Allocated(s, target) <= limit)
    case AdminDeleteUser(target, lastAdmin) => target in s.users && !lastAdmin
  }

  function Next(s: State, op: Op): State {
    if !Accepts(s, op) then s
    else match op
      case Register(user) => s.(users := s.users + {user})
      case CreateOrg(user, name, slug, _) =>
        s.(orgs := s.orgs[slug := s.next], members := s.members[(s.next, user) := "owner"],
           creators := s.creators[s.next := user], next := s.next + 1)
      case DeleteOrg(user, slug, _) =>  // members and quota go with the row
        var o := s.orgs[slug];
        s.(orgs := map k | k in s.orgs && s.orgs[k] != o :: s.orgs[k],
           members := map m | m in s.members && m.0 != o :: s.members[m],
           quotas := s.quotas - {o})
      case AddMember(user, slug, newUser, role) =>
        s.(members := s.members[(s.orgs[slug], newUser) := if role == "" then "member" else role])
      case RemoveMember(user, slug, target) => s.(members := s.members - {(s.orgs[slug], target)})
      case UpdateMemberRole(user, slug, target, role) => s.(members := s.members[(s.orgs[slug], target) := role])
      case SetOrgQuota(user, slug, limit) => s.(quotas := s.quotas[s.orgs[slug] := OrgQuota(user, limit)])
      case AdminSetUserLimit(target, limit) => s.(limits := s.limits[target := limit])
      case AdminDeleteUser(target, _) =>
        s.(users := s.users - {target}, members := map m | m in s.members && m.1 != target :: s.members[m])
  }

  function Run(s: State, ops: seq<Op>): State {
    if ops == [] then s else Next(Run(s, ops[..|ops| - 1]), ops[|ops| - 1])
  }

  // ------------------------------------------------------------------ the handlers

  class Accounts {
    var orgs: map<string, Id>
    var members: map<(Id, User), string>
    var quotas: map<Id, OrgQuota>
    var limits: map<User, int>
    var users: set<User>
    var next: Id
    ghost var creators: map<Id, User>

    constructor ()
      ensures Value() == EMPTY
    {
      orgs, members, quotas, limits, users, next, creators := map[], map[], map[], map[], {}, 0, map[];
    }

    /** The user has this role in the organization with this slug. */
    ghost predicate HasRole(user: User, slug: string, role: string)
      reads this
    {
      slug in orgs && (orgs[slug], user) in members && members[(orgs[slug], user)] == role
    }

    ghost function Value(): State reads this { State(orgs, members, quotas, limits, users, next, creators) }

    method CreateOrg(user: User, name: string, slug: string, tenantOk: bool) returns (ok: bool)
      modifies this
      ensures ok <==>
                && name != "" && tenantOk && slug !in old(orgs) && 3 <= |slug| <= 50 && 'a' <= slug[0] <= 'z'
                && (forall i :: 0 <= i < |slug| ==> 'a' <= slug[i] <= 'z' || '0' <= slug[i] <= '9' || slug[i] == '-')
                && slug[|slug| - 1] != '-'
      ensures ok ==> orgs == old(orgs)[slug := old(next)] && members == old(members)[(old(next), user) := "owner"]
                     && next == old(next) + 1
      ensures !ok ==> orgs == old(orgs) && members == old(members) && next == old(next)
      ensures quotas == old(quotas) && limits == old(limits) && users == old(users)
      ensures ok <==> Accepts(old(Value()), Op.CreateOrg(user, name, slug, tenantOk))
      ensures Value() == Next(old(Value()), Op.CreateOrg(user, name, slug, tenantOk))
    {
      if name == "" || slug == "" || !ValidSlug(slug) { return false; }
      if slug in orgs { return false; }
      if !tenantOk { return false; }  // the transaction rolls back
      var org := next;
      orgs := orgs[slug := org];
      members := members[(org, user) := "owner"];
      creators := creators[org := user];
      next := next + 1;
      ok := true;
    }

    /** The SELECT every handler starts with. */
    method FindMember(user: User, slug: string) returns (role: Option<string>)
      ensures role == RoleIn(Value(), user, slug)
    {
      if slug !in orgs || (orgs[slug], user) !in members { return None; }
      role := Some(members[(orgs[slug], user)]);
    }

    method DeleteOrg(user: User, slug: string, tenantOk: bool) returns (ok: bool)
      modifies this
      ensures ok <==> old(HasRole(user, slug, "owner")) && tenantOk
      ensures ok ==> var o := old(orgs)[slug];
                     && quotas == old(quotas) - {o}
                     && (forall k :: k in orgs <==> k in old(orgs) && old(orgs)[k] != o)
                     && (forall k :: k in orgs ==> orgs[k] == old(orgs)[k])
                     && (forall m :: m in members <==> m in old(members) && m.0 != o)
                     && (forall m :: m in members ==> members[m] == old(members)[m])
      ensures ok ==> var o := old(orgs)[slug];
                     forall u :: Allocated(Value(), u) == old(Allocated(Value(), u)) - ShareOf(old(Value()), o, u)
      ensures !ok ==> orgs == old(orgs) && members == old(members) && quotas == old(quotas)
      ensures limits == old(limits) && users == old(users) && next == old(next)
      ensures ok <==> Accepts(old(Value()), Op.DeleteOrg(user, slug, tenantOk))
      ensures Value() == Next(old(Value()), Op.DeleteOrg(user, slug, tenantOk))
    {
      var role := FindMember(user, slug);
      if role.None? || role.value != "owner" || !tenantOk { return false; }
      var o := orgs[slug];
      orgs := map k | k in orgs && orgs[k] != o :: orgs[k];
      members := map m | m in members && m.0 != o :: members[m];
      quotas := quotas - {o};
      ok := true;
      forall u ensures Allocated(Value(), u) == Allocated(old(Value()), u) - ShareOf(old(Value()), o, u) {
        SumWithout(old(quotas), u, o, next);
      }
    }

    method AddMember(user: User, slug: string, newUser: User, role: string) returns (ok: bool)
      modifies this
      ensures ok <==>
                && (old(HasRole(user, slug, "owner")) || old(HasRole(user, slug, "admin")))
                && newUser != "" && (role == "" || role == "member" || role == "admin")
                && (old(orgs)[slug], newUser) !in old(members)
      ensures orgs == old(orgs) && quotas == old(quotas) && limits == old(limits) && users == old(users)
              && next == old(next)
      ensures members == if ok then old(members)[(old(orgs)[slug], newUser) := if role == "" then "member" else role]
                         else old(members)
      ensures ok <==> Accepts(old(Value()), Op.AddMember(user, slug, newUser, role))
      ensures Value() == Next(old(Value()), Op.AddMember(user, slug, newUser, role))
    {
      var caller := FindMember(user, slug);
      if caller.None? || (caller.value != "owner" && caller.value != "admin") { return false; }
      if newUser == "" { return false; }
      var r := role;
      if r == "" { r := "member"; }
      if r != "member" && r != "admin" { return false; }
      if (orgs[slug], newUser) in members { return false; }
      members := members[(orgs[slug], newUser) := r];
      ok := true;
    }

    method RemoveMember(user: User, slug: string, target: User) returns (ok: bool)
      modifies this
      ensures ok <==>
                && (old(HasRole(user, slug, "owner")) || old(HasRole(user, slug, "admin")))
                && (old(orgs)[slug], target) in old(members) && !(target == user && old(HasRole(user, slug, "owner")))
      ensures orgs == old(orgs) && quotas == old(quotas) && limits == old(limits) && users == old(users)
              && next == old(next)
      ensures members == if ok then old(members) - {(old(orgs)[slug], target)} else old(members)
      ensures ok <==> Accepts(old(Value()), Op.RemoveMember(user, slug, target))
      ensures Value() == Next(old(Value()), Op.RemoveMember(user, slug, target))
    {
      var caller := FindMember(user, slug);
      if caller.None? || (caller.value != "owner" && caller.value != "admin") { return false; }
      if target == user && caller.value == "owner" { return false; }
      ok := (orgs[slug], target) in members;
      members := members - {(orgs[slug], target)};
    }

    method UpdateMemberRole(user: User, slug: string, target: User, role: string) returns (ok: bool)
      modifies this
      ensures ok <==> old(HasRole(user, slug, "owner")) && (role == "member" || role == "admin")
                      && (old(orgs)[slug], target) in old(members)
      ensures orgs == old(orgs) && quotas == old(quotas) && limits == old(limits) && users == old(users)
              && next == old(next)
      ensures members == if ok then old(members)[(old(orgs)[slug], target) := role] else old(members)
      ensures ok <==> Accepts(old(Value()), Op.UpdateMemberRole(user, slug, target, role))
      ensures Value() == Next(old(Value()), Op.UpdateMemberRole(user, slug, target, role))
    {
      var caller := FindMember(user, slug);
      if caller.None? || caller.value != "owner" { return false; }
      if role != "member" && role != "admin" { return false; }
      if (orgs[slug], target) !in members { return false; }
      members := members[(orgs[slug], target) := role];
      ok := true;
    }

    /** SELECT SUM(quota_limit) ... WHERE owner_user_id = ?; no row is negative,
        so the sum overflows on the way exactly when its total does. */
    method UserQuotaAllocated(user: User) returns (r: Option<int>)
      ensures r == if Summable(Value(), user) then Some(Allocated(Value(), user)) else None
    {
      var sum := 0;
      for o := 0 to next
        invariant sum == SumBelow(quotas, user, o)
      {
        if o in quotas && quotas[o].owner == user { sum := sum + quotas[o].limit; }
      }
      r := if sum <= MAX_INT64 then Some(sum) else None;
    }

    method SetOrgQuota(user: User, slug: string, limit: int) returns (ok: bool)
      modifies this
      ensures orgs == old(orgs) && members == old(members) && limits == old(limits) && users == old(users)
              && next == old(next)
      ensures ok ==> old(HasRole(user, slug, "owner")) && 0 <= limit <= MAX_INT64
      ensures quotas == if ok then old(quotas)[old(orgs)[slug] := OrgQuota(user, limit)] else old(quotas)
      ensures ok <==> Accepts(old(Value()), Op.SetOrgQuota(user, slug, limit))
      ensures Value() == Next(old(Value()), Op.SetOrgQuota(user, slug, limit))
    {
      if limit > MAX_INT64 || limit < 0 { return false; }  // beyond int64 the body does not bind
      var caller := FindMember(user, slug);
      if caller.None? || caller.value != "owner" { return false; }
      var o := orgs[slug];
      var userLimit := if user in limits then limits[user] else 0;
      var total := UserQuotaAllocated(user);
      if total.None? { return false; }
      var other := total.value - if o in quotas then quotas[o].limit else 0;
      if userLimit > 0 && Wrap64(other + limit) > userLimit { return false; }
      quotas := quotas[o := OrgQuota(user, limit)];
      ok := true;
    }

    method AdminSetUserLimit(target: User, limit: int) returns (ok: bool)
      modifies this
      ensures ok <==> && 0 <= limit <= MAX_INT64 && target in old(users) && Allocated(old(Value()), target) <= MAX_INT64
                      && (limit == 0 || Allocated(old(Value()), target) <= limit)
      ensures limits == if ok then old(limits)[target := limit] else old(limits)
      ensures orgs == old(orgs) && members == old(members) && quotas == old(quotas) && users == old(users)
              && next == old(next)
      ensures ok <==> Accepts(old(Value()), Op.AdminSetUserLimit(target, limit))
      ensures Value() == Next(old(Value()), Op.AdminSetUserLimit(target, limit))
    {
      if limit > MAX_INT64 || limit < 0 || target !in users { return false; }
      var total := UserQuotaAllocated(target);
      if total.None? { return false; }
      if limit > 0 && total.value > limit { return false; }
      limits := limits[target := limit];
      ok := true;
    }
  }

  // ------------------------------------------------------------- every run of them

  /** Only an organization's creator ever owns it or its quota row. */
  ghost predicate OwnersAreCreators(s: State) {
    && (forall o, u :: (o, u) in s.members && s.members[(o, u)] == "owner" ==> o in s.creators && s.creators[o] == u)
    && (forall o :: o in s.quotas ==> o in s.creators && s.quotas[o].owner == s.creators[o])
    && (forall o :: o in s.creators ==> o < s.next)
    && (forall slug :: slug in s.orgs ==> s.orgs[slug] < s.next)
  }

  /** No user with a limit has allocated more than it. */
  ghost predicate WithinLimits(s: State) {
    forall u :: UserLimit(s, u) > 0 ==> Allocated(s, u) <= UserLimit(s, u)
  }

  ghost predicate InRange(s: State) {
    && (forall o :: o in s.quotas ==> s.quotas[o].limit >= 0)
    && (forall u :: u in s.limits ==> s.limits[u] <= MAX_INT64)
  }

  ghost predicate Inv(s: State) { OwnersAreCreators(s) && InRange(s) }

  lemma {:induction false} SumNonNegative(quotas: map<Id, OrgQuota>, user: User, n: nat)
    requires forall o :: o in quotas ==> quotas[o].limit >= 0
    ensures SumBelow(quotas, user, n) >= 0
  {
    if n > 0 { SumNonNegative(quotas, user, n - 1); }
  }

  lemma {:induction false} SumWithout(quotas: map<Id, OrgQuota>, user: User, o: Id, n: nat)
    ensures SumBelow(quotas, user, n)
         == SumBelow(quotas - {o}, user, n)
            + if o < n && o in quotas && quotas[o].owner == user then quotas[o].limit else 0
  {
    if n > 0 { SumWithout(quotas, user, o, n - 1); }
  }

  lemma SumWith(quotas: map<Id, OrgQuota>, user: User, o: Id, q: OrgQuota, n: nat)
    requires o < n
    ensures SumBelow(quotas[o := q], user, n)
         == SumBelow(quotas - {o}, user, n) + if q.owner == user then q.limit else 0
  {
    SumWithout(quotas[o := q], user, o, n);
    assert quotas[o := q] - {o} == quotas - {o};
  }

  /** What the caller's organizations other than this one have, in truth. */
  function Others(s: State, user: User, slug: string): int
    requires slug in s.orgs
  {
    SumBelow(s.quotas - {s.orgs[slug]}, user, s.next)
  }

  /** The owner asks for an allocation that the int64 sum wraps around on. */
  predicate Wraps(s: State, op: Op) {
    && op.SetOrgQuota? && 0 <= op.limit <= MAX_INT64 && RoleIn(s, op.user, op.slug) == Some("owner")
    && UserLimit(s, op.user) > 0 && Others(s, op.user, op.slug) + op.limit > MAX_INT64
  }

  lemma OthersAre(s: State, user: User, slug: string)
    requires Inv(s) && RoleIn(s, user, slug) == Some("owner")
    ensures Others(s, user, slug) >= 0 && Allocated(s, user) == Others(s, user, slug) + OrgLimit(s, s.orgs[slug])
  {
    SumWithout(s.quotas, user, s.orgs[slug], s.next);
    SumNonNegative(s.quotas - {s.orgs[slug]}, user, s.next);
  }

  /** The allocation SetOrgQuota replaces is the caller's own, so, as long as
      the caller's allocations add up at all, the request is accepted exactly
      when the caller's other organizations and the new allocation together fit
      the limit, or are so much that the sum wraps around. */
  lemma SetOrgQuotaChecksOthers(s: State, user: User, slug: string, limit: int)
    requires Inv(s) && 0 <= limit <= MAX_INT64 && RoleIn(s, user, slug) == Some("owner")
    ensures Accepts(s, Op.SetOrgQuota(user, slug, limit)) <==>
              && Summable(s, user)
              && (UserLimit(s, user) <= 0 || Others(s, user, slug) + limit <= UserLimit(s, user)
                  || Others(s, user, slug) + limit > MAX_INT64)
  {
    OthersAre(s, user, slug);
  }

  lemma SetOrgQuotaAllocates(s: State, user: User, slug: string, limit: int, u: User)
    requires Inv(s) && Accepts(s, Op.SetOrgQuota(user, slug, limit))
    ensures Allocated(Next(s, Op.SetOrgQuota(user, slug, limit)), u)
         == if u == user then Others(s, user, slug) + limit else Allocated(s, u)
  {
    var o := s.orgs[slug];
    SumWithout(s.quotas, u, o, s.next);
    SumWith(s.quotas, u, o, OrgQuota(user, limit), s.next);
  }

  /** An owner's request leaves the limits kept exactly when it does not wrap. */
  lemma SetOrgQuotaKeepsLimitsIff(s: State, op: Op)
    requires Inv(s) && WithinLimits(s) && op.SetOrgQuota?
    ensures WithinLimits(Next(s, op)) <==> !Wraps(s, op)
  {
    if op.limit >= 0 && op.limit <= MAX_INT64 && RoleIn(s, op.user, op.slug) == Some("owner") {
      SetOrgQuotaChecksOthers(s, op.user, op.slug, op.limit);
      if Accepts(s, op) {
        forall u ensures Allocated(Next(s, op), u)
                      == if u == op.user then Others(s, op.user, op.slug) + op.limit else Allocated(s, u)
        {
          SetOrgQuotaAllocates(s, op.user, op.slug, op.limit, u);
        }
        forall u ensures UserLimit(Next(s, op), u) == UserLimit(s, u) {}
      }
    }
  }

  lemma DeleteOrgKeepsLimits(s: State, op: Op)
    requires WithinLimits(s) && InRange(s) && op.DeleteOrg? && Accepts(s, op)
    ensures WithinLimits(Next(s, op))
  {
    var t := Next(s, op);
    forall u | UserLimit(t, u) > 0 ensures Allocated(t, u) <= UserLimit(t, u) {
      SumWithout(s.quotas, u, s.orgs[op.slug], s.next);
      assert UserLimit(s, u) > 0 && Allocated(s, u) <= UserLimit(s, u);
    }
  }

  lemma CreateOrgKeepsLimits(s: State, op: Op)
    requires OwnersAreCreators(s) && WithinLimits(s) && op.CreateOrg? && Accepts(s, op)
    ensures WithinLimits(Next(s, op))
  {
    var t := Next(s, op);
    assert s.next !in s.quotas;
    forall u | UserLimit(t, u) > 0 ensures Allocated(t, u) <= UserLimit(t, u) {
      assert Allocated(t, u) == Allocated(s, u);
      assert UserLimit(s, u) > 0 ==> Allocated(s, u) <= UserLimit(s, u);
    }
  }

  /** A handler keeps every user's limit exactly when it is not a wrapping
      SetOrgQuota. */
  lemma StepKeepsLimitsIff(s: State, op: Op)
    requires Inv(s) && WithinLimits(s)
    ensures WithinLimits(Next(s, op)) <==> !Wraps(s, op)
  {
    if op.SetOrgQuota? {
      SetOrgQuotaKeepsLimitsIff(s, op);
    } else if Accepts(s, op) {
      match op
      case DeleteOrg(_, _, _) => DeleteOrgKeepsLimits(s, op);
      case CreateOrg(_, _, _, _) => CreateOrgKeepsLimits(s, op);
      case _ => OthersKeepLimits(s, op);
    }
  }

  lemma OthersKeepLimits(s: State, op: Op)
    requires WithinLimits(s) && Accepts(s, op) && !op.SetOrgQuota? && !op.DeleteOrg? && !op.CreateOrg?
    ensures WithinLimits(Next(s, op))
  {
    var t := Next(s, op);
    forall u | UserLimit(t, u) > 0 ensures Allocated(t, u) <= UserLimit(t, u) {
      assert Allocated(t, u) == Allocated(s, u);
      assert UserLimit(s, u) > 0 ==> Allocated(s, u) <= UserLimit(s, u);
    }
  }

  /** A deleted user has no account and no membership left; nobody else's change,
      and organizations, quota rows and limits stay as they are. */
  lemma DeletedUserIsGone(s: State, target: User, lastAdmin: bool)
    ensures var t := Next(s, Op.AdminDeleteUser(target, lastAdmin));
            if target in s.users && !lastAdmin then
              && target !in t.users && (forall o :: (o, target) !in t.members)
              && (forall u :: u != target ==> (u in t.users <==> u in s.users))
              && (forall o, u :: u != target ==> ((o, u) in t.members <==> (o, u) in s.members))
              && (forall m :: m in t.members ==> t.members[m] == s.members[m])
              && t == s.(users := t.users, members := t.members)
            else t == s
  {
    var t := Next(s, Op.AdminDeleteUser(target, lastAdmin));
    forall o: Id, u | u != target && target in s.users && !lastAdmin
      ensures (o, u) in t.members <==> (o, u) in s.members
    {
      assert (o, u).1 == u;
    }
    forall o: Id | target in s.users && !lastAdmin ensures (o, target) !in t.members { assert (o, target).1 == target; }
  }

  lemma StepKeepsInv(s: State, op: Op)
    requires Inv(s)
    ensures Inv(Next(s, op))
    ensures forall o :: o in s.creators ==> o in Next(s, op).creators && Next(s, op).creators[o] == s.creators[o]
  {
    StepKeepsRange(s, op);
    StepKeepsOwners(s, op);
  }

  lemma StepKeepsRange(s: State, op: Op)
    requires InRange(s)
    ensures InRange(Next(s, op))
  {
  }

  lemma StepKeepsOwners(s: State, op: Op)
    requires OwnersAreCreators(s)
    ensures OwnersAreCreators(Next(s, op))
    ensures forall o :: o in s.creators ==> o in Next(s, op).creators && Next(s, op).creators[o] == s.creators[o]
  {
  }

  lemma {:induction false} EveryRunIsOwned(ops: seq<Op>)
    ensures Inv(Run(EMPTY, ops))
    decreases |ops|
  {
    if ops != [] {
      EveryRunIsOwned(ops[..|ops| - 1]);
      StepKeepsInv(Run(EMPTY, ops[..|ops| - 1]), ops[|ops| - 1]);
    }
  }

  /** At every moment of the run no user has allocated more than its limit. */
  ghost predicate AlwaysWithinLimits(ops: seq<Op>) {
    forall n: nat {:trigger ops[..n]} :: n <= |ops| ==> WithinLimits(Run(EMPTY, ops[..n]))
  }

  ghost predicate NeverWraps(ops: seq<Op>) {
    forall n: nat {:trigger ops[n]} :: n < |ops| ==> !Wraps(Run(EMPTY, ops[..n]), ops[n])
  }

  lemma RunStep(ops: seq<Op>, n: nat)
    requires n < |ops|
    ensures Run(EMPTY, ops[..n + 1]) == Next(Run(EMPTY, ops[..n]), ops[n])
  {
    assert ops[..n + 1][..n] == ops[..n];
  }

  lemma {:induction false} WithinUpTo(ops: seq<Op>, n: nat)
    requires NeverWraps(ops) && n <= |ops|
    ensures WithinLimits(Run(EMPTY, ops[..n]))
  {
    if n == 0 {
      assert ops[..0] == [];
    } else {
      WithinUpTo(ops, n - 1);
      EveryRunIsOwned(ops[..n - 1]);
      RunStep(ops, n - 1);
      assert !Wraps(Run(EMPTY, ops[..n - 1]), ops[n - 1]);
      StepKeepsLimitsIff(Run(EMPTY, ops[..n - 1]), ops[n - 1]);
    }
  }

  /** Over a run of the handlers every user with a non-zero limit has always
      allocated no more than it to organizations, exactly when no SetOrgQuota of
      the run wraps around. */
  lemma RunIsWithinLimitsIff(ops: seq<Op>)
    ensures AlwaysWithinLimits(ops) <==> NeverWraps(ops)
  {
    if NeverWraps(ops) {
      forall n: nat | n <= |ops| ensures WithinLimits(Run(EMPTY, ops[..n])) { WithinUpTo(ops, n); }
    }
    if AlwaysWithinLimits(ops) {
      forall n: nat | n < |ops| ensures !Wraps(Run(EMPTY, ops[..n]), ops[n]) {
        EveryRunIsOwned(ops[..n]);
        RunStep(ops, n);
        StepKeepsLimitsIff(Run(EMPTY, ops[..n]), ops[n]);
      }
    }
  }

  /** A wrapping request is accepted. From then on the caller's sum fails, and
      with it every SetOrgQuota of the caller and every AdminSetUserLimit for it. */
  lemma WrapLocksTheOwner(s: State, op: Op)
    requires op.SetOrgQuota? && Inv(s) && Summable(s, op.user) && Wraps(s, op)
    ensures var t := Next(s, op);
            && Accepts(s, op) && UserLimit(t, op.user) == UserLimit(s, op.user) < Allocated(t, op.user)
            && (forall slug, limit :: !Accepts(t, Op.SetOrgQuota(op.user, slug, limit)))
            && (forall limit :: !Accepts(t, Op.AdminSetUserLimit(op.user, limit)))
  {
    SetOrgQuotaChecksOthers(s, op.user, op.slug, op.limit);
    SetOrgQuotaAllocates(s, op.user, op.slug, op.limit, op.user);
    var t := Next(s, op);
    assert !Summable(t, op.user);
    forall slug, limit ensures !Accepts(t, Op.SetOrgQuota(op.user, slug, limit)) {}
    forall limit ensures !Accepts(t, Op.AdminSetUserLimit(op.user, limit)) {}
  }

  /** Two organizations of one owner with a limit of 10. */
  const TWO_ORGS := State(
    map["aaa" := 0, "bbb" := 1], map[(0, "u") := "owner", (1, "u") := "owner"], map[], map["u" := 10], {"u"}, 2,
    map[0 := "u", 1 := "u"])

  lemma RunSnoc(ops: seq<Op>, op: Op)
    ensures Run(EMPTY, ops + [op]) == Next(Run(EMPTY, ops), op)
  {
    assert (ops + [op])[..|ops|] == ops;
  }

  lemma TwoOrgsRun() returns (ops: seq<Op>)
    ensures Run(EMPTY, ops) == TWO_ORGS
  {
    var a, b, c, d := Op.Register("u"), Op.CreateOrg("u", "A", "aaa", true), Op.CreateOrg("u", "B", "bbb", true),
                      Op.AdminSetUserLimit("u", 10);
    assert ValidSlug("aaa") && ValidSlug("bbb");
    RunSnoc([], a);
    RunSnoc([a], b);
    RunSnoc([a] + [b], c);
    var s3 := Run(EMPTY, [a] + [b] + [c]);
    assert s3 == TWO_ORGS.(limits := map[]) && Allocated(s3, "u") == 0;
    RunSnoc([a] + [b] + [c], d);
    ops := [a] + [b] + [c] + [d];
  }

  /** A limit of 10 bytes and 2^63 bytes allocated: 1 to one organization and
      2^63 - 1 to the other. */
  lemma WrapDefeatsLimit() returns (ops: seq<Op>)
    ensures UserLimit(Run(EMPTY, ops), "u") == 10 && Allocated(Run(EMPTY, ops), "u") == MAX_INT64 + 1
  {
    var e, f := Op.SetOrgQuota("u", "aaa", 1), Op.SetOrgQuota("u", "bbb", MAX_INT64);
    var setup := TwoOrgsRun();
    RunSnoc(setup, e);
    RunSnoc(setup + [e], f);
    ops := setup + [e] + [f];
    var s := TWO_ORGS.(quotas := map[0 := OrgQuota("u", 1)]);
    assert Next(TWO_ORGS, e) == s by { assert Allocated(TWO_ORGS, "u") == 0; }
    WrapsTwoOrgs(s, f);
  }

  lemma WrapsTwoOrgs(s: State, f: Op)
    requires s == TWO_ORGS.(quotas := map[0 := OrgQuota("u", 1)]) && f == Op.SetOrgQuota("u", "bbb", MAX_INT64)
    ensures UserLimit(Next(s, f), "u") == 10 && Allocated(Next(s, f), "u") == MAX_INT64 + 1
  {
    assert Inv(s);
    assert s.quotas - {1} == s.quotas;
    assert SumBelow(s.quotas, "u", 1) == 1 && Others(s, "u", "bbb") == 1 && Allocated(s, "u") == 1;
    WrapLocksTheOwner(s, f);
    SetOrgQuotaAllocates(s, "u", "bbb", MAX_INT64, "u");
  }

  lemma {:induction false} CreatorsStay(ops: seq<Op>, n: nat)
    requires n <= |ops|
    ensures OwnersAreCreators(Run(EMPTY, ops[..n]))
    ensures var s, t := Run(EMPTY, ops[..n]), Run(EMPTY, ops);
            forall o :: o in s.creators ==> o in t.creators && t.creators[o] == s.creators[o]
    decreases |ops|
  {
    EveryRunIsOwned(ops[..n]);
    if n < |ops| {
      var init := ops[..|ops| - 1];
      assert init[..n] == ops[..n];
      CreatorsStay(init, n);
      EveryRunIsOwned(init);
      StepKeepsInv(Run(EMPTY, init), ops[|ops| - 1]);
    } else {
      assert ops[..n] == ops;
    }
  }

  /** An organization has at most one owner in the whole of any run: whoever
      owns it at one moment is the only one who can own it at another. */
  lemma OneOwnerEver(ops: seq<Op>, m: nat, n: nat, o: Id, u: User, v: User)
    requires m <= |ops| && n <= |ops|
    requires (o, u) in Run(EMPTY, ops[..m]).members && Run(EMPTY, ops[..m]).members[(o, u)] == "owner"
    requires (o, v) in Run(EMPTY, ops[..n]).members && Run(EMPTY, ops[..n]).members[(o, v)] == "owner"
    ensures u == v
  {
    CreatorsStay(ops, m);
    CreatorsStay(ops, n);
  }
}

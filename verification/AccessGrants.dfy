/** Scoped access grants (core/platform/access/service.py): assigning and removing a role in
    a scope, and the decision that follows after any history of such operations. */
module AccessGrants {
  import opened Text
  import opened ScopedAccess
  import opened Directory
  import Accounts
  import opened SessionContext

  /** A registered role policy; both functions belong to the module that registers it. */
  datatype Policy = Policy(roleChoices: set<string>, normalizeRole: string -> string, resolve: string -> set<string>)

  type Registry = map<string, Policy>
  type GrantStore = map<Id, Grant>

  datatype GrantEvent =
    | Assign(scopeType: string, scopeId: string, userId: Id, role: string,
             userExists: bool, scopeExists: bool, newId: Id)
    | Remove(scopeType: string, scopeId: string, userId: Id)

  datatype Reply =
    | ScopeTypeRequired | ScopeIdRequired | UserNotFound | UnsupportedScopeType | UnsupportedScopeRole
    | NoPermissions | ScopeNotFound | GrantNotFound | Done

  function RoleOf(reg: Registry, t: string, role: string): string
    requires t in reg
  {
    Key(reg[t].normalizeRole(role))
  }

  /** `_resolve_scope_permissions` */
  function Resolve(reg: Registry, t: string, role: string): set<string>
    requires t in reg
  {
    NormalizeCodes(reg[t].resolve(role))
  }

  predicate Matches(g: Grant, t: string, i: string, u: Id) {
    g.scopeType == t && g.scopeId == i && g.userId == u
  }

  ghost predicate IsLive(s: GrantStore, t: string, i: string, u: Id) {
    exists g :: g in s && Matches(s[g], t, i, u)
  }

  function AssignReply(reg: Registry, e: GrantEvent): Reply
    requires e.Assign?
  {
    var t := Key(e.scopeType);
    if t == "" then ScopeTypeRequired
    else if Strip(e.scopeId) == "" then ScopeIdRequired
    else if !e.userExists then UserNotFound
    else if t !in reg then UnsupportedScopeType
    else if RoleOf(reg, t, e.role) !in reg[t].roleChoices then UnsupportedScopeRole
    else if Resolve(reg, t, RoleOf(reg, t, e.role)) == {} then NoPermissions
    else if !e.scopeExists then ScopeNotFound
    else Done
  }

  ghost function RemoveReply(reg: Registry, s: GrantStore, e: GrantEvent): Reply
    requires e.Remove?
  {
    var t, i := Key(e.scopeType), Strip(e.scopeId);
    if t == "" then ScopeTypeRequired
    else if t !in reg then UnsupportedScopeType
    else if i == "" then ScopeIdRequired
    else if !IsLive(s, t, i, e.userId) then GrantNotFound
    else Done
  }

  ghost function ReplyTo(reg: Registry, s: GrantStore, e: GrantEvent): Reply {
    if e.Assign? then AssignReply(reg, e) else RemoveReply(reg, s, e)
  }

  /** An accepted assignment rewrites the grant found for the key, or adds one. */
  ghost predicate Assigned(reg: Registry, s: GrantStore, e: GrantEvent, s': GrantStore)
    requires e.Assign? && AssignReply(reg, e) == Done
  {
    var t, i := Key(e.scopeType), Strip(e.scopeId);
    var role := RoleOf(reg, t, e.role);
    var codes := Resolve(reg, t, role);
    if IsLive(s, t, i, e.userId) then
      exists g :: g in s && Matches(s[g], t, i, e.userId) && s' == s[g := s[g].(role := role, codes := codes)]
    else
      s' == s[e.newId := Grant(t, i, e.userId, role, codes)]
  }

  ghost predicate Removed(s: GrantStore, e: GrantEvent, s': GrantStore)
    requires e.Remove?
  {
    exists g :: g in s && Matches(s[g], Key(e.scopeType), Strip(e.scopeId), e.userId) && s' == s - {g}
  }

  ghost predicate GrantStep(reg: Registry, s: GrantStore, e: GrantEvent, s': GrantStore) {
    if ReplyTo(reg, s, e) != Done then s' == s
    else if e.Assign? then e.newId !in s && Assigned(reg, s, e, s')
    else Removed(s, e, s')
  }

  // ----- the service ----------------------------------------------------------------------

  class AccessControlService {
    const registry: Registry
    var grants: GrantStore

    constructor (registry: Registry)
      ensures this.registry == registry && grants == map[]
    {
      this.registry := registry;
      grants := map[];
    }

    /** `get_for_scope_user`: the first row found, in any storage order. */
    method FindGrant(t: string, i: string, u: Id) returns (found: Option<Id>)
      ensures found.Some? ==> found.value in grants && Matches(grants[found.value], t, i, u)
      ensures found.None? ==> !IsLive(grants, t, i, u)
    {
      var ids := grants.Keys;
      while ids != {}
        invariant ids <= grants.Keys
        invariant forall g :: g in grants && g !in ids ==> !Matches(grants[g], t, i, u)
        decreases ids
      {
        var g :| g in ids;
        if Matches(grants[g], t, i, u) {
          return Some(g);
        }
        ids := ids - {g};
      }
      return None;
    }

    method AssignScopeGrant(scopeType: string, scopeId: string, userId: Id, scopeRole: string,
                            userExists: bool, scopeExists: bool, newId: Id) returns (reply: Reply)
      requires newId !in grants
      modifies this`grants
      ensures var e := Assign(scopeType, scopeId, userId, scopeRole, userExists, scopeExists, newId);
              reply == AssignReply(registry, e) && GrantStep(registry, old(grants), e, grants)
    {
      var t := Key(scopeType);
      if t == "" {
        return ScopeTypeRequired;
      }
      var i := Strip(scopeId);
      if i == "" {
        return ScopeIdRequired;
      }
      if !userExists {
        return UserNotFound;
      }
      if t !in registry {
        return UnsupportedScopeType;
      }
      var role := Key(registry[t].normalizeRole(scopeRole));
      if role !in registry[t].roleChoices {
        return UnsupportedScopeRole;
      }
      var codes := NormalizeCodes(registry[t].resolve(role));
      if codes == {} {
        return NoPermissions;
      }
      if !scopeExists {
        return ScopeNotFound;
      }
      var found := FindGrant(t, i, userId);
      if found.None? {
        grants := grants[newId := Grant(t, i, userId, role, codes)];
      } else {
        var grant := grants[found.value].(role := role);
        grant := grant.(codes := codes);
        grants := grants[found.value := grant];
      }
      return Done;
    }

    method RemoveScopeGrant(scopeType: string, scopeId: string, userId: Id) returns (reply: Reply)
      modifies this`grants
      ensures var e := Remove(scopeType, scopeId, userId);
              reply == RemoveReply(registry, old(grants), e) && GrantStep(registry, old(grants), e, grants)
    {
      var t := Key(scopeType);
      if t == "" {
        return ScopeTypeRequired;
      }
      if t !in registry {
        return UnsupportedScopeType;
      }
      var i := Strip(scopeId);
      if i == "" {
        return ScopeIdRequired;
      }
      var found := FindGrant(t, i, userId);
      if found.None? {
        return GrantNotFound;
      }
      grants := grants - {found.value};
      return Done;
    }
  }

  // ----- runs --------------------------------------------------------------------------------

  ghost predicate History(reg: Registry, states: seq<GrantStore>, events: seq<GrantEvent>) {
    && |states| == |events| + 1
    && states[0] == map[]
    && (forall k {:trigger events[k]} :: 0 <= k < |events| ==> GrantStep(reg, states[k], events[k], states[k + 1]))
  }

  predicate GrantOk(reg: Registry, g: Grant) {
    && g.scopeType != "" && Key(g.scopeType) == g.scopeType
    && g.scopeId != "" && Strip(g.scopeId) == g.scopeId
    && g.scopeType in reg
    && g.codes == Resolve(reg, g.scopeType, g.role) && g.codes != {}
  }

  predicate SameKey(g: Grant, h: Grant) {
    Matches(g, h.scopeType, h.scopeId, h.userId)
  }

  ghost predicate OnePerKey(s: GrantStore) {
    forall g, h :: g in s && h in s && SameKey(s[g], s[h]) ==> g == h
  }

  ghost predicate Inv(reg: Registry, s: GrantStore) {
    (forall g :: g in s ==> GrantOk(reg, s[g])) && OnePerKey(s)
  }

  /** Where an assignment for (t, i, u) writes its grant. */
  lemma Slot(s: GrantStore, t: string, i: string, u: Id, role: string, codes: set<string>, newId: Id, s': GrantStore)
    returns (g: Id)
    requires OnePerKey(s) && newId !in s
    requires if IsLive(s, t, i, u)
             then exists h :: h in s && Matches(s[h], t, i, u) && s' == s[h := s[h].(role := role, codes := codes)]
             else s' == s[newId := Grant(t, i, u, role, codes)]
    ensures s' == s[g := Grant(t, i, u, role, codes)]
    ensures forall h :: h in s && Matches(s[h], t, i, u) ==> h == g
    ensures g in s ==> Matches(s[g], t, i, u)
  {
    if IsLive(s, t, i, u) {
      g :| g in s && Matches(s[g], t, i, u) && s' == s[g := s[g].(role := role, codes := codes)];
      assert s[g].(role := role, codes := codes) == Grant(t, i, u, role, codes);
      forall h | h in s && Matches(s[h], t, i, u) ensures h == g { assert SameKey(s[h], s[g]); }
    } else {
      g := newId;
    }
  }

  /** The grant that an accepted assignment writes, and where. */
  lemma AssignedGrant(reg: Registry, s: GrantStore, e: GrantEvent, s': GrantStore) returns (g: Id, grant: Grant)
    requires OnePerKey(s) && GrantStep(reg, s, e, s') && e.Assign? && AssignReply(reg, e) == Done
    ensures var t, i := Key(e.scopeType), Strip(e.scopeId); var role := RoleOf(reg, t, e.role);
            grant == Grant(t, i, e.userId, role, Resolve(reg, t, role)) && s' == s[g := grant]
            && (forall h :: h in s && Matches(s[h], t, i, e.userId) ==> h == g)
            && (g in s ==> Matches(s[g], t, i, e.userId))
  {
    var t, i, u := Key(e.scopeType), Strip(e.scopeId), e.userId;
    var role := RoleOf(reg, t, e.role);
    var codes := Resolve(reg, t, role);
    grant := Grant(t, i, u, role, codes);
    g := Slot(s, t, i, u, role, codes, e.newId, s');
  }

  lemma StepKeepsUnique(reg: Registry, s: GrantStore, e: GrantEvent, s': GrantStore)
    requires OnePerKey(s) && GrantStep(reg, s, e, s')
    ensures OnePerKey(s')
  {
  }

  lemma WrittenGrantOk(reg: Registry, e: GrantEvent)
    requires e.Assign? && AssignReply(reg, e) == Done
    ensures var t := Key(e.scopeType); var role := RoleOf(reg, t, e.role);
            GrantOk(reg, Grant(t, Strip(e.scopeId), e.userId, role, Resolve(reg, t, role)))
  {
    KeyIdempotent(e.scopeType);
    StripIdempotent(e.scopeId);
  }

  lemma StepKeeps(reg: Registry, s: GrantStore, e: GrantEvent, s': GrantStore)
    requires Inv(reg, s) && GrantStep(reg, s, e, s')
    ensures Inv(reg, s')
  {
    StepKeepsUnique(reg, s, e, s');
    if e.Assign? && AssignReply(reg, e) == Done {
      var g, grant := AssignedGrant(reg, s, e, s');
      WrittenGrantOk(reg, e);
      forall h | h in s' ensures GrantOk(reg, s'[h]) { if h != g { assert s'[h] == s[h]; } }
    }
  }

  /** At most one live grant per (type, id, user), with exactly its role's permissions. */
  lemma {:induction false} ReachableInv(reg: Registry, states: seq<GrantStore>, events: seq<GrantEvent>, k: nat)
    requires History(reg, states, events) && k <= |events|
    ensures Inv(reg, states[k])
  {
    if k > 0 {
      ReachableInv(reg, states, events, k - 1);
      StepKeeps(reg, states[k - 1], events[k - 1], states[k]);
    }
  }

  // ----- what the history says -----------------------------------------------------------------

  predicate Concerns(e: GrantEvent, t: string, i: string, u: Id) {
    Key(e.scopeType) == t && Strip(e.scopeId) == i && e.userId == u
  }

  /** The assignment names an existing user and scope, a registered scope type and one of its
      roles, and that role brings some permission. */
  predicate Assignable(reg: Registry, e: GrantEvent)
    requires e.Assign?
  {
    var t := Key(e.scopeType);
    && t != "" && Strip(e.scopeId) != "" && e.userExists && e.scopeExists && t in reg
    && var role := Key(reg[t].normalizeRole(e.role));
       role in reg[t].roleChoices && exists c :: c in reg[t].resolve(role) && Strip(c) != ""
  }

  /** Assignments are accepted exactly when nothing of that is missing. */
  lemma AssignmentAccepted(reg: Registry, e: GrantEvent)
    requires e.Assign?
    ensures AssignReply(reg, e) == Done <==> Assignable(reg, e)
  {
    var t := Key(e.scopeType);
    if t in reg { SomeCodeIsKept(reg[t].resolve(RoleOf(reg, t, e.role))); }
  }

  lemma SomeCodeIsKept(codes: set<string>)
    ensures NormalizeCodes(codes) != {} <==> exists c :: c in codes && Strip(c) != ""
  {
    if c :| c in codes && Strip(c) != "" { assert Strip(c) in NormalizeCodes(codes); }
    if NormalizeCodes(codes) != {} {
      var c :| c in NormalizeCodes(codes);
    }
  }

  function RoleAfter(reg: Registry, e: GrantEvent, t: string, i: string, u: Id, r: Option<string>): Option<string> {
    if e.Assign? && Concerns(e, t, i, u) && Assignable(reg, e) then Some(RoleOf(reg, t, e.role))
    else if e.Remove? && Concerns(e, t, i, u) then None
    else r
  }

  /** The role of the last accepted assignment for the key, unless removed since. */
  function LastRole(reg: Registry, events: seq<GrantEvent>, k: nat, t: string, i: string, u: Id): Option<string>
    requires k <= |events|
  {
    if k == 0 then None
    else RoleAfter(reg, events[k - 1], t, i, u, LastRole(reg, events, k - 1, t, i, u))
  }

  ghost predicate RoleIs(s: GrantStore, t: string, i: string, u: Id, r: Option<string>) {
    if r.None? then !IsLive(s, t, i, u)
    else exists g :: g in s && Matches(s[g], t, i, u) && s[g].role == r.value
  }

  lemma PutSetsRole(s: GrantStore, g: Id, grant: Grant, t: string, i: string, u: Id, r: Option<string>)
    requires RoleIs(s, t, i, u, r)
    requires forall h :: h in s && SameKey(s[h], grant) ==> h == g
    requires g in s ==> SameKey(s[g], grant)
    ensures RoleIs(s[g := grant], t, i, u, if Matches(grant, t, i, u) then Some(grant.role) else r)
  {
    var s' := s[g := grant];
    if Matches(grant, t, i, u) {
      assert g in s' && Matches(s'[g], t, i, u);
    } else if r.Some? {
      var h :| h in s && Matches(s[h], t, i, u) && s[h].role == r.value;
      assert h != g && h in s' && s'[h] == s[h];
    } else {
      forall h | h in s' ensures !Matches(s'[h], t, i, u) {
        if h != g { assert s'[h] == s[h]; }
      }
    }
  }

  lemma DropClearsRole(s: GrantStore, g: Id, t: string, i: string, u: Id, r: Option<string>)
    requires OnePerKey(s) && RoleIs(s, t, i, u, r) && g in s
    ensures RoleIs(s - {g}, t, i, u, if Matches(s[g], t, i, u) then None else r)
  {
    var s' := s - {g};
    if Matches(s[g], t, i, u) {
      forall h | h in s && Matches(s[h], t, i, u) ensures h == g { assert SameKey(s[h], s[g]); }
    } else if r.Some? {
      var h :| h in s && Matches(s[h], t, i, u) && s[h].role == r.value;
      assert h in s' && s'[h] == s[h];
    }
  }

  lemma AssignStores(reg: Registry, s: GrantStore, e: GrantEvent, s': GrantStore, t: string, i: string, u: Id, r: Option<string>)
    requires OnePerKey(s) && GrantStep(reg, s, e, s') && RoleIs(s, t, i, u, r)
    requires e.Assign? && AssignReply(reg, e) == Done
    ensures RoleIs(s', t, i, u, if Concerns(e, t, i, u) then Some(RoleOf(reg, Key(e.scopeType), e.role)) else r)
  {
    var g, grant := AssignedGrant(reg, s, e, s');
    forall h | h in s && SameKey(s[h], grant) ensures h == g {}
    PutSetsRole(s, g, grant, t, i, u, r);
  }

  lemma RemoveForgets(reg: Registry, s: GrantStore, e: GrantEvent, s': GrantStore, t: string, i: string, u: Id, r: Option<string>)
    requires OnePerKey(s) && GrantStep(reg, s, e, s') && RoleIs(s, t, i, u, r)
    requires e.Remove? && RemoveReply(reg, s, e) == Done
    ensures RoleIs(s', t, i, u, if Concerns(e, t, i, u) then None else r)
  {
    var g :| g in s && Matches(s[g], Key(e.scopeType), Strip(e.scopeId), e.userId) && s' == s - {g};
    DropClearsRole(s, g, t, i, u, r);
  }

  /** A removal is accepted exactly when there is something to remove. */
  lemma RemovalAccepted(reg: Registry, s: GrantStore, e: GrantEvent)
    requires Inv(reg, s) && e.Remove?
    ensures RemoveReply(reg, s, e) == Done <==> IsLive(s, Key(e.scopeType), Strip(e.scopeId), e.userId)
  {
  }

  lemma StepStores(reg: Registry, s: GrantStore, e: GrantEvent, s': GrantStore, t: string, i: string, u: Id, r: Option<string>)
    requires Inv(reg, s) && GrantStep(reg, s, e, s') && RoleIs(s, t, i, u, r)
    ensures RoleIs(s', t, i, u, RoleAfter(reg, e, t, i, u, r))
  {
    if e.Assign? { AssignmentAccepted(reg, e); }
    if e.Assign? && AssignReply(reg, e) == Done {
      AssignStores(reg, s, e, s', t, i, u, r);
    } else if e.Remove? {
      RemovalAccepted(reg, s, e);
      if RemoveReply(reg, s, e) == Done { RemoveForgets(reg, s, e, s', t, i, u, r); }
    }
  }

  /** The stored grants are exactly what the history of operations says. */
  lemma {:induction false} StoreFollowsHistory(reg: Registry, states: seq<GrantStore>, events: seq<GrantEvent>, k: nat,
                                               t: string, i: string, u: Id)
    requires History(reg, states, events) && k <= |events|
    ensures RoleIs(states[k], t, i, u, LastRole(reg, events, k, t, i, u))
  {
    if k > 0 {
      StoreFollowsHistory(reg, states, events, k - 1, t, i, u);
      ReachableInv(reg, states, events, k - 1);
      StepStores(reg, states[k - 1], events[k - 1], states[k], t, i, u, LastRole(reg, events, k - 1, t, i, u));
    }
  }

  // ----- from the history to the decision ----------------------------------------------------------

  lemma GivenByLiveGrant(reg: Registry, d: Directory, u: Id, t: string, i: string, code: string)
    requires Inv(reg, d.grants)
    ensures GivenIn(d, u, t, i, code)
       <==> exists g :: g in d.grants && Matches(d.grants[g], t, i, u) && code in d.grants[g].codes
  {
    if GivenIn(d, u, t, i, code) {
      var g :| GrantGives(d, g, u, t, i, code);
      assert GrantOk(reg, d.grants[g]);
      ResolvedCodesAreTrimmed(reg, d.grants[g]);
      assert Matches(d.grants[g], t, i, u) && code in d.grants[g].codes;
    }
    if exists g :: g in d.grants && Matches(d.grants[g], t, i, u) && code in d.grants[g].codes {
      var g :| g in d.grants && Matches(d.grants[g], t, i, u) && code in d.grants[g].codes;
      assert GrantOk(reg, d.grants[g]);
      ResolvedCodesAreTrimmed(reg, d.grants[g]);
      assert GrantGives(d, g, u, t, i, code);
    }
  }

  lemma ResolvedCodesAreTrimmed(reg: Registry, g: Grant)
    requires GrantOk(reg, g)
    ensures forall c :: c in g.codes ==> c != "" && Strip(c) == c
  {
    forall c | c in g.codes ensures c != "" && Strip(c) == c {
      var p :| p in reg[g.scopeType].resolve(g.role) && Strip(p) != "" && Strip(p) == c;
      StripIdempotent(p);
    }
  }

  /** Whether the last role given in (t, i) resolves to the code. */
  predicate RoleGives(reg: Registry, t: string, r: Option<string>, code: string) {
    t in reg && r.Some? && code in Resolve(reg, t, r.value)
  }

  /** A user's grant for (t, i) gives what its role resolves to. */
  lemma GivenByRole(reg: Registry, d: Directory, u: Id, t: string, i: string, r: Option<string>, code: string)
    requires Inv(reg, d.grants) && RoleIs(d.grants, t, i, u, r)
    ensures GivenIn(d, u, t, i, code) <==> RoleGives(reg, t, r, code)
  {
    GivenByLiveGrant(reg, d, u, t, i, code);
    if r.Some? {
      var g :| g in d.grants && Matches(d.grants[g], t, i, u) && d.grants[g].role == r.value;
      GrantCodes(reg, d.grants, g);
      forall h | h in d.grants && Matches(d.grants[h], t, i, u) ensures h == g {
        assert SameKey(d.grants[h], d.grants[g]);
      }
    }
  }

  lemma GrantCodes(reg: Registry, s: GrantStore, g: Id)
    requires Inv(reg, s) && g in s
    ensures s[g].scopeType in reg && s[g].codes == Resolve(reg, s[g].scopeType, s[g].role) != {}
  {
  }

  lemma LiveGrantGives(reg: Registry, d: Directory, u: Id, t: string, i: string)
    requires Inv(reg, d.grants) && IsLive(d.grants, t, i, u)
    ensures HasGrantsOf(d, u, t)
  {
    var g :| g in d.grants && Matches(d.grants[g], t, i, u);
    GrantCodes(reg, d.grants, g);
    var code :| code in d.grants[g].codes;
    GivenByLiveGrant(reg, d, u, t, i, code);
  }

  lemma GivenByHistory(reg: Registry, states: seq<GrantStore>, events: seq<GrantEvent>, k: nat,
                       d: Directory, u: Id, t: string, i: string, code: string)
    requires History(reg, states, events) && k <= |events| && d.grants == states[k]
    ensures GivenIn(d, u, t, i, code) <==> RoleGives(reg, t, LastRole(reg, events, k, t, i, u), code)
  {
    ReachableInv(reg, states, events, k);
    StoreFollowsHistory(reg, states, events, k, t, i, u);
    GivenByRole(reg, d, u, t, i, LastRole(reg, events, k, t, i, u), code);
  }

  lemma GrantsOfHistory(reg: Registry, states: seq<GrantStore>, events: seq<GrantEvent>, k: nat,
                        d: Directory, u: Id, t: string)
    requires History(reg, states, events) && k <= |events| && d.grants == states[k]
    ensures HasGrantsOf(d, u, t) <==> exists i :: LastRole(reg, events, k, t, i, u).Some?
  {
    if HasGrantsOf(d, u, t) {
      var i, code :| GivenIn(d, u, t, i, code);
      GivenByHistory(reg, states, events, k, d, u, t, i, code);
    }
    if exists i :: LastRole(reg, events, k, t, i, u).Some? {
      var i :| LastRole(reg, events, k, t, i, u).Some?;
      ReachableInv(reg, states, events, k);
      StoreFollowsHistory(reg, states, events, k, t, i, u);
      LiveGrantGives(reg, d, u, t, i);
    }
  }

  /** After any history of assignments and removals, whatever was cached before: a validated
      non-admin principal passes the scope check exactly when its user holds the code
      globally and either has no live grant of that scope type or the last role given in
      that very scope resolves to the code. */
  lemma DecisionFollowsHistory(reg: Registry, states: seq<GrantStore>, events: seq<GrantEvent>, k: nat,
                               w: World, cached: Option<Accounts.Principal>, scopeType: string, scopeId: string, code: string)
    requires History(reg, states, events) && k <= |events| && w.directory.grants == states[k]
    requires Active(w, true, cached).Some? && !IsAdmin(w.directory, cached.value.userId)
    ensures var u, t := cached.value.userId, Key(scopeType);
            MayUseIn(Active(w, true, cached), scopeType, scopeId, code)
            <==> && HoldsGlobally(w.directory, u, code)
                 && ((forall i :: LastRole(reg, events, k, t, i, u).None?)
                     || RoleGives(reg, t, LastRole(reg, events, k, t, Strip(scopeId), u), code))
  {
    var u, t := cached.value.userId, Key(scopeType);
    CacheCoherence(w, cached);
    GrantsOfHistory(reg, states, events, k, w.directory, u, t);
    GivenByHistory(reg, states, events, k, w.directory, u, t, Strip(scopeId), code);
    assert MayUseIn(Active(w, true, cached), scopeType, scopeId, code) <==> Entitled(w.directory, u, scopeType, scopeId, code);
  }
}

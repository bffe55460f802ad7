/** The cached principal (`UserSessionContext`) and the decisions taken from it, the
    from-scratch meaning of those decisions, and the bulk row filter of
    `SessionAuthorizationEngine`. */
module SessionContext {
  import opened Text
  import opened ScopedAccess
  import opened Directory
  import opened Accounts
  import opened AccountRuns

  /** Everything a check reads: the stored accounts and directory, and the instant. */
  datatype World = World(cfg: Config, accounts: Accounts, directory: Directory, now: int)

  const ADMIN: string := "admin"

  /** `_normalize_principal` */
  function NormalizePrincipal(p: Principal): Principal {
    var scoped := NormalizeTable(p.scoped, p.project);
    var r := Effective(p.revision);
    p.(permissions := NormalizeCodes(p.permissions), scoped := scoped, project := ProjectRows(scoped),
       revision := if r < 1 then 1 else r)
  }

  /** What `_active_principal` returns, and leaves cached. */
  function Active(w: World, validating: bool, cached: Option<Principal>): Option<Principal> {
    if cached.None? then None
    else if cached.value.expiresAt.Some? && w.now >= cached.value.expiresAt.value then None
    else if !validating then cached
    else match Validate(w.cfg, w.accounts, w.directory, cached.value, w.now)
         case None => None
         case Some(p) => Some(NormalizePrincipal(p))
  }

  // ----- decisions on an active principal ------------------------------------------------

  function ScopeRows(p: Principal, scopeType: string): map<string, set<string>> {
    var t := Key(scopeType);
    if t == "" || t !in p.scoped then map[] else p.scoped[t]
  }

  predicate MayUse(a: Option<Principal>, code: string) {
    a.Some? && code in a.value.permissions
  }

  predicate MayUseSomewhere(a: Option<Principal>, scopeType: string, code: string) {
    && MayUse(a, code)
    && var rows := ScopeRows(a.value, scopeType);
       ADMIN in a.value.roleNames || rows == map[] || exists i :: i in rows && code in rows[i]
  }

  predicate MayUseIn(a: Option<Principal>, scopeType: string, scopeId: string, code: string) {
    && MayUse(a, code)
    && var rows := ScopeRows(a.value, scopeType);
       || ADMIN in a.value.roleNames
       || rows == map[]
       || (Strip(scopeId) in rows && code in rows[Strip(scopeId)])
  }

  function AllowedIds(a: Option<Principal>, scopeType: string, code: string): set<string> {
    if a.None? then {}
    else
      var rows := ScopeRows(a.value, scopeType);
      set i | i in rows && code in rows[i]
  }

  predicate Restricted(a: Option<Principal>, scopeType: string) {
    a.Some? && ADMIN !in a.value.roleNames && ScopeRows(a.value, scopeType) != map[]
  }

  // ----- the same decisions, from scratch --------------------------------------------------

  ghost predicate HoldsGlobally(d: Directory, u: Id, code: string) {
    code != "" && exists rp :: rp in d.rolePermissions && (u, rp.0) in d.bindings && rp.1 in d.permissionCodes
                               && Strip(d.permissionCodes[rp.1]) == code
  }

  ghost predicate IsAdmin(d: Directory, u: Id) {
    exists b :: b in d.bindings && b.0 == u && b.1 in d.roleNames && d.roleNames[b.1] == ADMIN
  }

  /** The stored grant `g` gives `u` the code in scope (t, i); keys are compared normalised. */
  ghost predicate GrantGives(d: Directory, g: Id, u: Id, t: string, i: string, code: string) {
    && g in d.grants && d.grants[g].userId == u
    && Key(d.grants[g].scopeType) == t && Strip(d.grants[g].scopeId) == i
    && t != "" && i != "" && code != ""
    && exists c :: c in d.grants[g].codes && Strip(c) == code
  }

  ghost predicate GivenIn(d: Directory, u: Id, t: string, i: string, code: string) {
    exists g :: GrantGives(d, g, u, t, i, code)
  }

  ghost predicate HasGrantsOf(d: Directory, u: Id, t: string) {
    exists i, code :: GivenIn(d, u, t, i, code)
  }

  ghost predicate Entitled(d: Directory, u: Id, scopeType: string, scopeId: string, code: string) {
    && HoldsGlobally(d, u, code)
    && (IsAdmin(d, u) || !HasGrantsOf(d, u, Key(scopeType)) || GivenIn(d, u, Key(scopeType), Strip(scopeId), code))
  }

  // ----- a built and normalised principal answers from scratch --------------------------------

  /** The principal's tables are those of user `u` in directory `d`. */
  predicate Reflects(p: Principal, d: Directory, u: Id) {
    && p.userId == u
    && p.roleNames == UserRoleNames(d, u)
    && p.permissions == NormalizeCodes(UserPermissions(d, u))
    && p.scoped == UserScopedAccess(d, u)
  }

  lemma UserTableMeaning(d: Directory, u: Id)
    ensures Tight(UserScopedAccess(d, u))
    ensures forall t, i, c :: Grants(UserScopedAccess(d, u), t, i, c) <==> GivenIn(d, u, t, i, c)
    ensures forall t, i, c :: Grants(UserScopedAccess(d, u), t, i, c) ==> Normal((t, i, c))
  {
    var s := UserGrantTriples(d, u);
    FromTriplesMeaning(NormalizeTriples(s));
    NormalizeTriplesNormal(s);
    forall t, i, c
      ensures Grants(UserScopedAccess(d, u), t, i, c) <==> GivenIn(d, u, t, i, c)
    {
      assert Grants(UserScopedAccess(d, u), t, i, c) <==> (t, i, c) in NormalizeTriples(s);
      if (t, i, c) in NormalizeTriples(s) {
        var x :| x in s && Kept(x) && NormalizeTriple(x) == (t, i, c);
        var g, p :| g in d.grants && d.grants[g].userId == u && p in d.grants[g].codes
                    && x == (d.grants[g].scopeType, d.grants[g].scopeId, p);
        assert GrantGives(d, g, u, t, i, c);
      }
      if GivenIn(d, u, t, i, c) {
        var g :| GrantGives(d, g, u, t, i, c);
        var p :| p in d.grants[g].codes && Strip(p) == c;
        var x := (d.grants[g].scopeType, d.grants[g].scopeId, p);
        assert x in s && Kept(x) && NormalizeTriple(x) == (t, i, c);
      }
    }
  }

  lemma NormalizedUserTable(d: Directory, u: Id)
    ensures NormalizeTable(UserScopedAccess(d, u), ProjectRows(UserScopedAccess(d, u))) == UserScopedAccess(d, u)
  {
    var s := UserGrantTriples(d, u);
    assert ProjectTriples(map[]) == {};
    var m: Table := FromTriples(s);
    FromTriplesMeaning(s);
    assert Triples(m) + ProjectTriples(map[]) == s;
    assert NormalizeTable(m, map[]) == UserScopedAccess(d, u);
    NormalizationIsIdempotent(m, map[]);
  }

  lemma BuiltReflects(cfg: Config, st: Accounts, d: Directory, uid: Id, requested: Option<Id>)
    requires uid in st.users
    ensures Reflects(NormalizePrincipal(BuildPrincipal(cfg, st, d, uid, requested)), d, uid)
  {
    NormalizedUserTable(d, uid);
  }

  lemma ReflectedPermission(p: Principal, d: Directory, u: Id, code: string)
    requires Reflects(p, d, u)
    ensures code in p.permissions <==> HoldsGlobally(d, u, code)
  {
  }

  lemma ReflectedAdmin(p: Principal, d: Directory, u: Id)
    requires Reflects(p, d, u)
    ensures ADMIN in p.roleNames <==> IsAdmin(d, u)
  {
  }

  lemma ReflectedRows(p: Principal, d: Directory, u: Id, scopeType: string)
    requires Reflects(p, d, u)
    ensures ScopeRows(p, scopeType) != map[] <==> HasGrantsOf(d, u, Key(scopeType))
    ensures forall i, c :: i in ScopeRows(p, scopeType) && c in ScopeRows(p, scopeType)[i]
                      <==> GivenIn(d, u, Key(scopeType), i, c)
  {
    UserTableMeaning(d, u);
    var t, rows := Key(scopeType), ScopeRows(p, scopeType);
    forall i, c ensures i in rows && c in rows[i] <==> GivenIn(d, u, t, i, c) {
      assert Grants(p.scoped, t, i, c) <==> GivenIn(d, u, t, i, c);
    }
    if rows != map[] {
      var i :| i in rows;
      assert rows[i] != {};
      var c :| c in rows[i];
      assert GivenIn(d, u, t, i, c);
    }
  }

  lemma ReflectedDecision(p: Principal, d: Directory, u: Id, scopeType: string, scopeId: string, code: string)
    requires Reflects(p, d, u)
    ensures MayUseIn(Some(p), scopeType, scopeId, code) <==> Entitled(d, u, scopeType, scopeId, code)
  {
    ReflectedPermission(p, d, u, code);
    ReflectedAdmin(p, d, u);
    ReflectedRows(p, d, u, scopeType);
  }

  /** The same for the answers that concern a scope type as a whole. */
  lemma ReflectedScopes(p: Principal, d: Directory, u: Id, scopeType: string, code: string)
    requires Reflects(p, d, u)
    ensures MayUseSomewhere(Some(p), scopeType, code) <==> EntitledSomewhere(d, u, scopeType, code)
    ensures forall i :: i in AllowedIds(Some(p), scopeType, code) <==> GivenIn(d, u, Key(scopeType), i, code)
    ensures Restricted(Some(p), scopeType) <==> !IsAdmin(d, u) && HasGrantsOf(d, u, Key(scopeType))
  {
    ReflectedPermission(p, d, u, code);
    ReflectedAdmin(p, d, u);
    ReflectedRows(p, d, u, scopeType);
  }

  ghost predicate EntitledSomewhere(d: Directory, u: Id, scopeType: string, code: string) {
    && HoldsGlobally(d, u, code)
    && (IsAdmin(d, u) || !HasGrantsOf(d, u, Key(scopeType)) || exists i :: GivenIn(d, u, Key(scopeType), i, code))
  }

  /** What all five questions answer for user `u` when computed from scratch. */
  ghost predicate AnswersFromScratch(a: Option<Principal>, d: Directory, u: Id) {
    && (forall code :: MayUse(a, code) <==> HoldsGlobally(d, u, code))
    && (forall t, i, code :: MayUseIn(a, t, i, code) <==> Entitled(d, u, t, i, code))
    && (forall t, code :: MayUseSomewhere(a, t, code) <==> EntitledSomewhere(d, u, t, code))
    && (forall t, code, i :: i in AllowedIds(a, t, code) <==> GivenIn(d, u, Key(t), i, code))
    && (forall t :: Restricted(a, t) <==> !IsAdmin(d, u) && HasGrantsOf(d, u, Key(t)))
  }

  ghost predicate PermitsNothing(a: Option<Principal>) {
    && (forall code :: !MayUse(a, code))
    && (forall t, i, code :: !MayUseIn(a, t, i, code) && !MayUseSomewhere(a, t, code) && AllowedIds(a, t, code) == {})
    && (forall t :: !Restricted(a, t))
  }

  /** With the validator installed, however stale the cached principal is: either it is
      dropped, and then nothing is permitted, no scope id is listed, and no scope type counts
      as restricted; or every permission and scope answer is the one computed from the
      current roles, role permissions and grants of its user. */
  lemma CacheCoherence(w: World, cached: Option<Principal>)
    ensures var a := Active(w, true, cached);
            if a.Some? then
              && cached.Some? && Reflects(a.value, w.directory, cached.value.userId)
              && AnswersFromScratch(a, w.directory, cached.value.userId)
            else PermitsNothing(a)
  {
    var a := Active(w, true, cached);
    if a.Some? {
      var u := cached.value.userId;
      var requested := if w.cfg.persist && cached.value.sessionId.Some? then cached.value.sessionId else None;
      assert a == Some(NormalizePrincipal(BuildPrincipal(w.cfg, w.accounts, w.directory, u, requested)));
      BuiltReflects(w.cfg, w.accounts, w.directory, u, requested);
      ReflectedAnswers(a.value, w.directory, u);
    } else {
      NothingWithoutPrincipal(a);
    }
  }

  lemma NothingWithoutPrincipal(a: Option<Principal>)
    requires a.None?
    ensures PermitsNothing(a)
  {
    forall code ensures !MayUse(a, code) {}
    forall t, i, code ensures !MayUseIn(a, t, i, code) && !MayUseSomewhere(a, t, code) && AllowedIds(a, t, code) == {} {}
    forall t ensures !Restricted(a, t) {}
  }

  /** In a reachable state a cached principal with a stored session stays in use exactly as
      long as it has not expired, its user is active, and the session is theirs, unrevoked and
      unexpired; each answer is then the one from scratch. */
  lemma ServedExactly(cfg: Config, states: seq<Accounts>, events: seq<Timed>, k: nat, w: World, p: Principal)
    requires Run(cfg, states, events) && k <= |events| && w.cfg == cfg && w.accounts == states[k]
    requires cfg.persist && p.sessionId.Some?
    ensures var a, st, sid := Active(w, true, Some(p)), states[k], p.sessionId.value;
            && (a.Some? <==> && (p.expiresAt.Some? ==> w.now < p.expiresAt.value)
                             && p.userId in st.users && st.users[p.userId].active
                             && sid in st.sessions && st.sessions[sid].userId == p.userId
                             && st.sessions[sid].revokedAt.None?
                             && st.sessions[sid].expiresAt.Some? && w.now < st.sessions[sid].expiresAt.value)
            && (a.Some? ==> AnswersFromScratch(a, w.directory, p.userId))
  {
    SessionGuardsAgree(cfg, states, events, k, w.directory, p, w.now);
    CacheCoherence(w, Some(p));
  }

  /** A user who has just signed in is served, whatever roles and grants have become since,
      for one timeout and no longer; with or without stored sessions. */
  lemma SignedInUserIsServed(cfg: Config, states: seq<Accounts>, events: seq<Timed>, k: nat, a: Attempt, d: Directory, w: World)
    requires Run(cfg, states, events) && k < |events| && events[k].event == Login(a)
    requires AttemptOutcome(cfg, states[k], events[k].at, a) == SignedIn
    requires w.cfg == cfg && w.accounts == states[k + 1] && a.uid.value in states[k + 1].users
    ensures var uid := a.uid.value;
            var p := NormalizePrincipal(BuildPrincipal(cfg, states[k + 1], d, uid, if cfg.persist then Some(a.sid) else None));
            var b := Active(w, true, Some(p));
            && (b.Some? <==> w.now < events[k].at + Lasts(cfg, states[k].users[uid].timeoutOverride))
            && (b.Some? ==> AnswersFromScratch(b, w.directory, uid))
  {
    var uid := a.uid.value;
    var built := BuildPrincipal(cfg, states[k + 1], d, uid, if cfg.persist then Some(a.sid) else None);
    SignInLastsOneTimeout(cfg, states, events, k, a, d, w.directory, w.now);
    ReachableInv(cfg, states, events, k + 1);
    assert UserOk(cfg, states[k + 1], uid);
    NormalizedValidatesAlike(w, built);
    CacheCoherence(w, Some(NormalizePrincipal(built)));
  }

  lemma NormalizedValidatesAlike(w: World, p: Principal)
    ensures p.revision >= 1 ==> Validate(w.cfg, w.accounts, w.directory, NormalizePrincipal(p), w.now) == Validate(w.cfg, w.accounts, w.directory, p, w.now)
  {
  }

  /** With or without a validator an expired principal is dropped; without one, any other is
      used as it is. */
  lemma ExpiredIsDropped(w: World, validating: bool, p: Principal)
    ensures p.expiresAt.Some? && p.expiresAt.value <= w.now ==> Active(w, validating, Some(p)) == None
    ensures (p.expiresAt.Some? ==> w.now < p.expiresAt.value) ==> Active(w, false, Some(p)) == Some(p)
  {
  }

  lemma ReflectedAnswers(p: Principal, d: Directory, u: Id)
    requires Reflects(p, d, u)
    ensures AnswersFromScratch(Some(p), d, u)
  {
    forall code ensures MayUse(Some(p), code) <==> HoldsGlobally(d, u, code) {
      ReflectedPermission(p, d, u, code);
    }
    forall t, i, code ensures MayUseIn(Some(p), t, i, code) <==> Entitled(d, u, t, i, code) {
      ReflectedDecision(p, d, u, t, i, code);
    }
    forall t, code
      ensures MayUseSomewhere(Some(p), t, code) <==> EntitledSomewhere(d, u, t, code)
      ensures forall i :: i in AllowedIds(Some(p), t, code) <==> GivenIn(d, u, Key(t), i, code)
    {
      ReflectedScopes(p, d, u, t, code);
    }
    forall t ensures Restricted(Some(p), t) <==> !IsAdmin(d, u) && HasGrantsOf(d, u, Key(t)) {
      ReflectedScopes(p, d, u, t, "");
    }
  }

  // ----- repeating a check ---------------------------------------------------------------------

  ghost predicate Reachable(w: World) {
    exists states, events, k :: Run(w.cfg, states, events) && 0 <= k <= |events| && states[k] == w.accounts
  }

  predicate LiveSession(w: World, uid: Id, sid: Id) {
    && w.cfg.persist && sid in w.accounts.sessions && uid in w.accounts.users
    && var s := w.accounts.sessions[sid];
       && s.userId == uid && s.revokedAt.None? && s.expiresAt.Some? && w.now < s.expiresAt.value
       && Effective(s.revision) == Effective(w.accounts.users[uid].revision)
  }

  lemma RebuiltValidates(w: World, clock: int, uid: Id, requested: Option<Id>, q: Principal)
    requires Inv(w.cfg, w.accounts, clock) && (w.cfg.persist || w.accounts.sessions == map[])
    requires uid in w.accounts.users && w.accounts.users[uid].active
    requires var u := w.accounts.users[uid]; u.expiresAt.Some? && w.now < u.expiresAt.value
    requires requested.Some? ==> LiveSession(w, uid, requested.value)
    requires var p := BuildPrincipal(w.cfg, w.accounts, w.directory, uid, requested);
             q.userId == uid && q.sessionId == p.sessionId && q.expiresAt == p.expiresAt
             && Effective(q.revision) == Effective(p.revision)
    ensures Validate(w.cfg, w.accounts, w.directory, q, w.now)
         == Some(BuildPrincipal(w.cfg, w.accounts, w.directory, uid, requested))
    ensures q.expiresAt.Some? && w.now < q.expiresAt.value
  {
  }

  lemma NormalizingKeepsCredentials(p: Principal)
    requires p.revision >= 1
    ensures var q := NormalizePrincipal(p);
            q.userId == p.userId && q.sessionId == p.sessionId && q.expiresAt == p.expiresAt && q.revision == p.revision
  {
  }

  /** What an accepted check was answered with: the principal rebuilt for `requested`. */
  lemma AcceptedIsRebuilt(w: World, cached: Option<Principal>) returns (uid: Id, requested: Option<Id>)
    ensures Active(w, true, cached).Some? ==>
              && uid in w.accounts.users && w.accounts.users[uid].active
              && (var u := w.accounts.users[uid]; u.expiresAt.Some? && w.now < u.expiresAt.value)
              && (requested.Some? ==> LiveSession(w, uid, requested.value))
              && Active(w, true, cached) == Some(NormalizePrincipal(BuildPrincipal(w.cfg, w.accounts, w.directory, uid, requested)))
  {
    uid := if cached.Some? then cached.value.userId else "";
    requested := if cached.Some? && w.cfg.persist && cached.value.sessionId.Some? then cached.value.sessionId else None;
  }

  lemma RebuiltIsStable(w: World, clock: int, uid: Id, requested: Option<Id>)
    requires Inv(w.cfg, w.accounts, clock) && (w.cfg.persist || w.accounts.sessions == map[])
    requires uid in w.accounts.users && w.accounts.users[uid].active
    requires var u := w.accounts.users[uid]; u.expiresAt.Some? && w.now < u.expiresAt.value
    requires requested.Some? ==> LiveSession(w, uid, requested.value)
    ensures var q := NormalizePrincipal(BuildPrincipal(w.cfg, w.accounts, w.directory, uid, requested));
            Active(w, true, Some(q)) == Some(q)
  {
    var p := BuildPrincipal(w.cfg, w.accounts, w.directory, uid, requested);
    assert p.revision >= 1 by { assert UserOk(w.cfg, w.accounts, uid); }
    NormalizingKeepsCredentials(p);
    RebuiltValidates(w, clock, uid, requested, NormalizePrincipal(p));
  }

  lemma StableAt(w: World, states: seq<Accounts>, events: seq<Timed>, k: nat, cached: Option<Principal>)
    requires Run(w.cfg, states, events) && k <= |events| && states[k] == w.accounts
    ensures Active(w, true, Active(w, true, cached)) == Active(w, true, cached)
  {
    var uid, requested := AcceptedIsRebuilt(w, cached);
    if Active(w, true, cached).Some? {
      ReachableInv(w.cfg, states, events, k);
      RebuiltIsStable(w, ClockAt(events, k), uid, requested);
    }
  }

  /** In a reachable state a second check at the same instant changes nothing. */
  lemma RepeatedCheckIsStable(w: World, validating: bool, cached: Option<Principal>)
    requires Reachable(w)
    ensures Active(w, validating, Active(w, validating, cached)) == Active(w, validating, cached)
  {
    if validating {
      var states, events, k :| Run(w.cfg, states, events) && 0 <= k <= |events| && states[k] == w.accounts;
      StableAt(w, states, events, k, cached);
    }
  }

  // ----- the context object ----------------------------------------------------------------------

  class UserSessionContext {
    var principal: Option<Principal>
    var validating: bool

    constructor (validating: bool)
      ensures principal == None && this.validating == validating
    {
      principal := None;
      this.validating := validating;
    }

    method SetPrincipal(p: Principal)
      modifies this`principal
      ensures principal == Some(NormalizePrincipal(p))
    {
      principal := Some(NormalizePrincipal(p));
    }

    method ActivePrincipal(w: World) returns (a: Option<Principal>)
      modifies this`principal
      ensures a == principal == Active(w, validating, old(principal))
    {
      if principal.None? {
        return None;
      }
      var p := principal.value;
      if p.expiresAt.Some? && w.now >= p.expiresAt.value {
        principal := None;
        return None;
      }
      if validating {
        var validated := Validate(w.cfg, w.accounts, w.directory, p, w.now);
        if validated.None? {
          principal := None;
          return None;
        }
        var normalized := NormalizePrincipal(validated.value);
        if normalized != p {
          p := normalized;
          principal := Some(p);
        }
      }
      return Some(p);
    }

    method HasPermission(w: World, code: string) returns (r: bool)
      modifies this`principal
      ensures principal == Active(w, validating, old(principal)) && r == MayUse(principal, code)
    {
      var a := ActivePrincipal(w);
      return a.Some? && code in a.value.permissions;
    }

    method HasAnyScopeAccess(w: World, scopeType: string, code: string) returns (r: bool)
      modifies this`principal
      ensures principal == Active(w, validating, old(principal)) && r == MayUseSomewhere(principal, scopeType, code)
    {
      var a := ActivePrincipal(w);
      if a.None? {
        return false;
      }
      var p := a.value;
      if ADMIN in p.roleNames {
        return code in p.permissions;
      }
      if code !in p.permissions {
        return false;
      }
      var rows := ScopeRows(p, scopeType);
      if rows == map[] {
        return true;
      }
      var ids := rows.Keys;
      while ids != {}
        invariant ids <= rows.Keys
        invariant forall i :: i in rows && i !in ids ==> code !in rows[i]
        decreases ids
      {
        var i :| i in ids;
        if code in rows[i] {
          return true;
        }
        ids := ids - {i};
      }
      return false;
    }

    method HasScopePermission(w: World, scopeType: string, scopeId: string, code: string) returns (r: bool)
      modifies this`principal
      ensures principal == Active(w, validating, old(principal)) && r == MayUseIn(principal, scopeType, scopeId, code)
    {
      var a := ActivePrincipal(w);
      if a.None? {
        return false;
      }
      var p := a.value;
      if ADMIN in p.roleNames {
        return code in p.permissions;
      }
      if code !in p.permissions {
        return false;
      }
      var rows := ScopeRows(p, scopeType);
      if rows == map[] {
        return true;
      }
      var id := Strip(scopeId);
      return id in rows && code in rows[id];
    }

    method ScopeIdsFor(w: World, scopeType: string, code: string) returns (r: set<string>)
      modifies this`principal
      ensures principal == Active(w, validating, old(principal)) && r == AllowedIds(principal, scopeType, code)
    {
      var a := ActivePrincipal(w);
      if a.None? {
        return {};
      }
      var rows := ScopeRows(a.value, scopeType);
      return set i | i in rows && code in rows[i];
    }

    method IsScopeRestricted(w: World, scopeType: string) returns (r: bool)
      modifies this`principal
      ensures principal == Active(w, validating, old(principal)) && r == Restricted(principal, scopeType)
    {
      var a := ActivePrincipal(w);
      if a.None? {
        return false;
      }
      if ADMIN in a.value.roleNames {
        return false;
      }
      return ScopeRows(a.value, scopeType) != map[];
    }
  }

  // ----- the bulk row filter ------------------------------------------------------------------------

  /** The subsequence of the rows that satisfy `keep`. */
  ghost function Keep<T(!new)>(rows: seq<T>, keep: T -> bool): seq<T> {
    if rows == [] then []
    else Keep(rows[..|rows| - 1], keep) + if keep(rows[|rows| - 1]) then [rows[|rows| - 1]] else []
  }

  ghost function FilteredRows<T(!new)>(a: Option<Principal>, rows: seq<T>, idOf: T -> string,
                                       scopeType: string, code: string): seq<T> {
    if !MayUse(a, code) then []
    else if !Restricted(a, scopeType) then rows
    else Keep(rows, r => idOf(r) in AllowedIds(a, scopeType, code))
  }

  /** `SessionAuthorizationEngine.filter_scope_rows`. Each of its three questions runs the
      whole check again. */
  method FilterScopeRows<T(!new)>(context: UserSessionContext?, w: World, rows: seq<T>, idOf: T -> string,
                                  scopeType: string, code: string) returns (r: seq<T>)
    requires Reachable(w)
    modifies context
    ensures context == null ==> r == []
    ensures context != null ==>
              && context.principal == Active(w, context.validating, old(context.principal))
              && r == FilteredRows(context.principal, rows, idOf, scopeType, code)
  {
    if context == null {
      return [];
    }
    RepeatedCheckIsStable(w, context.validating, context.principal);
    var permitted := context.HasPermission(w, code);
    if !permitted {
      return [];
    }
    var restricted := context.IsScopeRestricted(w, scopeType);
    if !restricted {
      return rows;
    }
    var allowed := context.ScopeIdsFor(w, scopeType, code);
    r := [];
    for k := 0 to |rows|
      invariant r == Keep(rows[..k], x => idOf(x) in allowed)
    {
      assert rows[..k + 1][..k] == rows[..k];
      if idOf(rows[k]) in allowed {
        r := r + [rows[k]];
      }
    }
    assert rows[..|rows|] == rows;
    ghost var a := context.principal;
    KeepSame(rows, x => idOf(x) in allowed, x => idOf(x) in AllowedIds(a, scopeType, code));
  }

  lemma {:induction false} KeepSame<T(!new)>(rows: seq<T>, f: T -> bool, g: T -> bool)
    requires forall x :: x in rows ==> f(x) == g(x)
    ensures Keep(rows, f) == Keep(rows, g)
  {
    if rows != [] {
      KeepSame(rows[..|rows| - 1], f, g);
    }
  }

  lemma {:induction false} KeepAll<T(!new)>(rows: seq<T>, f: T -> bool)
    requires forall x :: x in rows ==> f(x)
    ensures Keep(rows, f) == rows
  {
    if rows != [] {
      var front, last := rows[..|rows| - 1], rows[|rows| - 1];
      assert last in rows && forall x :: x in front ==> x in rows;
      KeepAll(front, f);
      assert rows == front + [last];
    }
  }

  lemma {:induction false} KeepNone<T(!new)>(rows: seq<T>, f: T -> bool)
    requires forall x :: x in rows ==> !f(x)
    ensures Keep(rows, f) == []
  {
    if rows != [] {
      KeepNone(rows[..|rows| - 1], f);
    }
  }

  lemma {:induction false} KeepFewer<T(!new)>(rows: seq<T>, f: T -> bool, g: T -> bool)
    requires forall x :: x in rows && f(x) ==> g(x)
    ensures |Keep(rows, f)| <= |Keep(rows, g)|
    ensures (exists x :: x in rows && g(x) && !f(x)) ==> |Keep(rows, f)| < |Keep(rows, g)|
  {
    if rows != [] {
      var front, last := rows[..|rows| - 1], rows[|rows| - 1];
      KeepFewer(front, f, g);
      forall x | x in rows && g(x) && !f(x) && !(g(last) && !f(last))
        ensures exists y :: y in front && g(y) && !f(y)
      {
        assert x in front;
      }
    }
  }

  /** Every scope id of the table is trimmed, as normalisation leaves it. */
  predicate TrimmedIds(p: Principal) {
    forall t :: t in p.scoped ==> forall i :: i in p.scoped[t] ==> Strip(i) == i
  }

  /** An untrimmed row id whose trimmed form the principal may use. */
  ghost predicate MissedRow<T(!new)>(a: Option<Principal>, idOf: T -> string, scopeType: string, code: string, x: T) {
    MayUse(a, code) && Restricted(a, scopeType)
    && Strip(idOf(x)) != idOf(x) && Strip(idOf(x)) in AllowedIds(a, scopeType, code)
  }

  lemma FilterKeepsNoMore<T(!new)>(a: Option<Principal>, idOf: T -> string, scopeType: string, code: string, x: T)
    requires a.Some? ==> TrimmedIds(a.value)
    requires MayUse(a, code) && Restricted(a, scopeType)
    ensures idOf(x) in AllowedIds(a, scopeType, code)
       <==> MayUseIn(a, scopeType, idOf(x), code) && !MissedRow(a, idOf, scopeType, code, x)
  {
  }

  /** The bulk filter returns exactly the order-preserving subsequence of rows that pass the
      per-row check, if and only if no row carries an untrimmed id whose trimmed form is
      allowed; in particular for rows with trimmed ids. */
  lemma FilterRefinesPerRowCheck<T(!new)>(a: Option<Principal>, rows: seq<T>, idOf: T -> string,
                                          scopeType: string, code: string)
    requires a.Some? ==> TrimmedIds(a.value)
    ensures FilteredRows(a, rows, idOf, scopeType, code) == Keep(rows, x => MayUseIn(a, scopeType, idOf(x), code))
       <==> !exists x :: x in rows && MissedRow(a, idOf, scopeType, code, x)
  {
    var perRow := x => MayUseIn(a, scopeType, idOf(x), code);
    if !MayUse(a, code) {
      KeepNone(rows, perRow);
    } else if !Restricted(a, scopeType) {
      KeepAll(rows, perRow);
    } else {
      var bulk := x => idOf(x) in AllowedIds(a, scopeType, code);
      forall x ensures bulk(x) <==> perRow(x) && !MissedRow(a, idOf, scopeType, code, x) {
        FilterKeepsNoMore(a, idOf, scopeType, code, x);
      }
      if exists x :: x in rows && MissedRow(a, idOf, scopeType, code, x) {
        var x :| x in rows && MissedRow(a, idOf, scopeType, code, x);
        assert perRow(x) && !bulk(x);
        KeepFewer(rows, bulk, perRow);
      } else {
        KeepSame(rows, bulk, perRow);
      }
    }
  }

  /** Whether it came from validation or from `SetPrincipal`, a cached principal is
      normalised and has trimmed scope ids. */
  lemma NormalizedIdsAreTrimmed(p: Principal)
    ensures TrimmedIds(NormalizePrincipal(p))
  {
    var s := Triples(p.scoped) + ProjectTriples(p.project);
    var m := NormalizeTable(p.scoped, p.project);
    FromTriplesMeaning(NormalizeTriples(s));
    NormalizeTriplesNormal(s);
    forall t | t in m ensures forall i :: i in m[t] ==> Strip(i) == i {
      forall i | i in m[t] ensures Strip(i) == i {
        var c :| c in m[t][i];
        assert Grants(m, t, i, c);
        assert Normal((t, i, c));
      }
    }
  }

  function ExamplePrincipal(): Principal {
    Principal("u", {}, {"c"}, map["t" := map["a" := {"c"}]], map[], None, false, 1, None)
  }

  lemma ExampleIsTrimmed(p: Principal)
    requires p == ExamplePrincipal()
    ensures TrimmedIds(p)
  {
    TrimmedIsFixed("a");
  }

  lemma ExampleRows(p: Principal)
    requires p == ExamplePrincipal()
    ensures ScopeRows(p, "t") == map["a" := {"c"}]
  {
    LowerTextIsKey("t");
  }

  /** A row that carries the allowed id "a" with a blank in front passes the per-row check
      and is missed by the filter. */
  lemma FilterMissesUntrimmedRow(idOf: string -> string, row: string)
    requires row == " a" && idOf(row) == row
    ensures var a := Some(ExamplePrincipal());
            TrimmedIds(a.value) && FilteredRows(a, [row], idOf, "t", "c") == []
            && Keep([row], x => MayUseIn(a, "t", idOf(x), "c")) == [row]
  {
    var a := Some(ExamplePrincipal());
    ExampleIsTrimmed(a.value);
    ExampleRows(a.value);
    BlankBefore(row, "a");
    assert row != "a" by { assert |row| == 2; }
    assert AllowedIds(a, "t", "c") == {"a"} by {
      assert a.value.scoped["t"]["a"] == {"c"};
    }
    MissedAlone(a, idOf, "t", "c", row);
  }

  lemma MissedAlone<T(!new)>(a: Option<Principal>, idOf: T -> string, scopeType: string, code: string, x: T)
    requires MayUse(a, code) && Restricted(a, scopeType)
    requires idOf(x) !in AllowedIds(a, scopeType, code) && Strip(idOf(x)) in AllowedIds(a, scopeType, code)
    ensures FilteredRows(a, [x], idOf, scopeType, code) == []
    ensures Keep([x], y => MayUseIn(a, scopeType, idOf(y), code)) == [x]
  {
    KeepNone([x], y => idOf(y) in AllowedIds(a, scopeType, code));
    KeepAll([x], y => MayUseIn(a, scopeType, idOf(y), code));
  }

  lemma BlankBefore(s: string, t: string)
    requires s == " " + t && Trimmed(t)
    ensures Strip(s) == t
  {
    assert s[1..] == t && StripLeft(s) == StripLeft(t);
    TrimmedIsFixed(t);
  }
}

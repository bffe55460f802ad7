/** The account machine (core/platform/auth/service.py): user records with a session
    revision, an expiry, a failure counter and a lock; persisted sessions with a revision,
    an expiry and a revocation mark; and the operations that change them. */
module Accounts {
  import opened Text
  import opened ScopedAccess
  import opened Directory

  /** Time is counted in ticks; overrides are configured in minutes. */
  const MINUTE: int := 60_000_000

  datatype User = User(
    active: bool,
    failed: int,
    lockedUntil: Option<int>,
    expiresAt: Option<int>,
    revision: int,
    timeoutOverride: Option<int>,
    activeSession: Option<Id>,
    mfaEnabled: bool,
    mustChange: bool)

  datatype AuthSession = AuthSession(userId: Id, revision: int, expiresAt: Option<int>, revokedAt: Option<int>)

  datatype Accounts = Accounts(users: map<Id, User>, sessions: map<Id, AuthSession>)

  /** `persist`: a session repository is configured. `keepActive`: the user repository
      stores `active_session_id` (the SQL mapper does not). */
  datatype Config = Config(threshold: int, lockLength: int, defaultTimeout: int, persist: bool, keepActive: bool) {
    predicate Valid() {
      threshold >= 1 && lockLength >= MINUTE && defaultTimeout >= 5 * MINUTE
    }
  }

  /** `int(revision or 1)` */
  function Effective(revision: int): int {
    if revision == 0 then 1 else revision
  }

  // ----- pieces of the operations --------------------------------------------

  predicate ValidOverride(o: Option<int>) {
    o.Some? ==> 5 <= o.value <= 1440
  }

  /** `_next_session_expiry` without the base time; `None` when the stored override is
      refused by `_validate_session_timeout_override`. */
  function Timeout(cfg: Config, u: User): Option<int> {
    if !ValidOverride(u.timeoutOverride) then None
    else if u.timeoutOverride.Some? then Some(u.timeoutOverride.value * MINUTE)
    else Some(cfg.defaultTimeout)
  }

  function ClearExpiredLock(u: User, now: int): User {
    if u.lockedUntil.Some? && u.lockedUntil.value <= now then u.(failed := 0, lockedUntil := None) else u
  }

  function RegisterFailure(cfg: Config, u: User, now: int): User {
    var n := u.failed + 1;
    u.(failed := n, lockedUntil := if n >= cfg.threshold then Some(now + cfg.lockLength) else u.lockedUntil)
  }

  function Rotate(u: User): User {
    var r := Effective(u.revision);
    u.(revision := (if r < 1 then 1 else r) + 1)
  }

  function RevokeAllOf(sessions: map<Id, AuthSession>, uid: Id, now: int): map<Id, AuthSession> {
    map s | s in sessions ::
      if sessions[s].userId == uid && sessions[s].revokedAt.None?
      then sessions[s].(revokedAt := Some(now))
      else sessions[s]
  }

  // ----- sign-in ---------------------------------------------------------------

  /** One sign-in attempt, its account already looked up. `sid` is the generated session id. */
  datatype Attempt = Attempt(uid: Option<Id>, federated: bool, passwordOk: bool, mfaOk: bool, sid: Id)

  datatype Outcome = Unknown | Locked | Failed | Misconfigured | SignedIn

  function OutcomeFor(cfg: Config, u: User, now: int, a: Attempt): Outcome {
    if !u.active then Unknown
    else if ClearExpiredLock(u, now).lockedUntil.Some? then Locked
    else if !a.federated && !a.passwordOk then Failed
    else if u.mfaEnabled && !a.mfaOk then Failed
    else if Timeout(cfg, u).None? then Misconfigured
    else SignedIn
  }

  function AttemptOutcome(cfg: Config, st: Accounts, now: int, a: Attempt): Outcome {
    if a.uid.None? || a.uid.value !in st.users then Unknown
    else OutcomeFor(cfg, st.users[a.uid.value], now, a)
  }

  function Complete(cfg: Config, st: Accounts, uid: Id, now: int, sid: Id): Accounts
    requires uid in st.users && Timeout(cfg, st.users[uid]).Some?
  {
    var u := st.users[uid];
    var expiry := Some(now + Timeout(cfg, u).value);
    var r := Effective(u.revision);
    Accounts(
      st.users[uid := u.(failed := 0, lockedUntil := None, expiresAt := expiry,
                         activeSession := if cfg.persist && cfg.keepActive then Some(sid) else None)],
      if cfg.persist then st.sessions[sid := AuthSession(uid, if r < 1 then 1 else r, expiry, None)]
      else st.sessions)
  }

  /** `authenticate` and `authenticate_federated`. */
  function SignIn(cfg: Config, st: Accounts, now: int, a: Attempt): Accounts {
    match AttemptOutcome(cfg, st, now, a)
    case Unknown => st
    case Locked => st
    case Failed =>
      var uid := a.uid.value;
      st.(users := st.users[uid := RegisterFailure(cfg, ClearExpiredLock(st.users[uid], now), now)])
    case Misconfigured =>
      var uid := a.uid.value;
      st.(users := st.users[uid := ClearExpiredLock(st.users[uid], now)])
    case SignedIn => Complete(cfg, st, a.uid.value, now, a.sid)
  }

  // ----- all operations --------------------------------------------------------

  datatype Event =
    | Register(uid: Id, active: bool, override: Option<int>, mustChange: bool)
    | Login(attempt: Attempt)
    | ChangePassword(uid: Id, currentOk: bool, newOk: bool)
    | ResetPassword(uid: Id, newOk: bool)
    | SetSessionPolicy(uid: Id, override: Option<int>)
    | RevokeUserSessions(uid: Id)
    | RevokeSession(sid: Id)
    | Unlock(uid: Id)
    | SetActive(uid: Id, active: bool)
    | SetMfa(uid: Id, enabled: bool)

  function NewUser(active: bool, override: Option<int>, mustChange: bool): User {
    User(active, 0, None, None, 1, override, None, false, mustChange)
  }

  /** The common tail of the rotating operations: new revision and expiry, all of the
      user's persisted sessions revoked. */
  function RotateAndRevoke(cfg: Config, st: Accounts, uid: Id, u: User, expiry: int, now: int): Accounts {
    Accounts(st.users[uid := Rotate(u).(expiresAt := Some(expiry))],
             if cfg.persist then RevokeAllOf(st.sessions, uid, now) else st.sessions)
  }

  function PasswordSet(cfg: Config, st: Accounts, now: int, uid: Id, mustChange: bool): Accounts
    requires uid in st.users
  {
    var u := st.users[uid].(mustChange := mustChange);
    match Timeout(cfg, u)
    case None => st
    case Some(t) => RotateAndRevoke(cfg, st, uid, u, now + t, now)
  }

  /** The effect of one operation at time `now`; a refused operation changes nothing. */
  function Step(cfg: Config, st: Accounts, now: int, ev: Event): Accounts {
    match ev
    case Register(uid, active, override, mustChange) =>
      if ValidOverride(override) then st.(users := st.users[uid := NewUser(active, override, mustChange)]) else st
    case Login(a) => SignIn(cfg, st, now, a)
    case ChangePassword(uid, currentOk, newOk) =>
      if uid in st.users && currentOk && newOk then PasswordSet(cfg, st, now, uid, false) else st
    case ResetPassword(uid, newOk) =>
      if uid in st.users && newOk then PasswordSet(cfg, st, now, uid, true) else st
    case SetSessionPolicy(uid, override) =>
      if uid in st.users && ValidOverride(override) then
        var u := st.users[uid].(timeoutOverride := override);
        RotateAndRevoke(cfg, st, uid, u, now + Timeout(cfg, u).value, now)
      else st
    case RevokeUserSessions(uid) =>
      if uid in st.users then RotateAndRevoke(cfg, st, uid, st.users[uid], now, now) else st
    case RevokeSession(sid) =>
      if cfg.persist && sid in st.sessions
      then st.(sessions := st.sessions[sid := st.sessions[sid].(revokedAt := Some(now))])
      else st
    case Unlock(uid) =>
      if uid in st.users then st.(users := st.users[uid := st.users[uid].(failed := 0, lockedUntil := None)]) else st
    case SetActive(uid, active) =>
      if uid in st.users then st.(users := st.users[uid := st.users[uid].(active := active)]) else st
    case SetMfa(uid, enabled) =>
      if uid in st.users then st.(users := st.users[uid := st.users[uid].(mfaEnabled := enabled)]) else st
  }

  /** Generated ids are new. */
  predicate Fresh(st: Accounts, ev: Event) {
    match ev
    case Register(uid, _, _, _) => uid !in st.users
    case Login(a) => a.sid !in st.sessions
    case _ => true
  }

  /** The accepted operations that rotate the session revision of `uid`. */
  predicate RotatesFor(cfg: Config, st: Accounts, ev: Event, uid: Id) {
    && uid in st.users
    && match ev
       case ChangePassword(u, currentOk, newOk) => u == uid && currentOk && newOk && Timeout(cfg, st.users[uid]).Some?
       case ResetPassword(u, newOk) => u == uid && newOk && Timeout(cfg, st.users[uid]).Some?
       case SetSessionPolicy(u, override) => u == uid && ValidOverride(override)
       case RevokeUserSessions(u) => u == uid
       case _ => false
  }

  // ----- principals --------------------------------------------------------------

  datatype Principal = Principal(
    userId: Id,
    roleNames: set<string>,
    permissions: set<string>,
    scoped: Table,
    project: map<string, set<string>>,
    expiresAt: Option<int>,
    mustChange: bool,
    revision: int,
    sessionId: Option<Id>)

  /** The session id that `build_principal` settles on, and its record if it counts. */
  function ResolveSession(cfg: Config, st: Accounts, u: User, requested: Option<Id>): (Option<Id>, Option<AuthSession>) {
    var sid := if requested.Some? then requested else u.activeSession;
    var s := if cfg.persist && sid.Some? && sid.value in st.sessions then Some(st.sessions[sid.value]) else None;
    if s.Some? && s.value.revokedAt.Some? then (None, None) else (sid, s)
  }

  function BuildPrincipal(cfg: Config, st: Accounts, d: Directory, uid: Id, requested: Option<Id>): Principal
    requires uid in st.users
  {
    var u := st.users[uid];
    var (sid, s) := ResolveSession(cfg, st, u, requested);
    var scoped := UserScopedAccess(d, uid);
    Principal(uid, UserRoleNames(d, uid), UserPermissions(d, uid), scoped, ProjectRows(scoped),
              if s.Some? then s.value.expiresAt else u.expiresAt,
              u.mustChange, Effective(u.revision), sid)
  }

  /** `validate_session_principal` */
  function Validate(cfg: Config, st: Accounts, d: Directory, p: Principal, now: int): Option<Principal> {
    if p.userId !in st.users || !st.users[p.userId].active then None
    else
      var u := st.users[p.userId];
      if u.expiresAt.None? || now >= u.expiresAt.value then None
      else if cfg.persist && p.sessionId.Some? then
        var sid := p.sessionId.value;
        if sid !in st.sessions || st.sessions[sid].userId != p.userId then None
        else
          var s := st.sessions[sid];
          if s.revokedAt.Some? then None
          else if s.expiresAt.None? || now >= s.expiresAt.value then None
          else if Effective(s.revision) != Effective(u.revision) then None
          else Some(BuildPrincipal(cfg, st, d, p.userId, Some(sid)))
      else if p.expiresAt.None? || p.expiresAt != u.expiresAt then None
      else if Effective(p.revision) != Effective(u.revision) then None
      else Some(BuildPrincipal(cfg, st, d, p.userId, None))
  }

  // ----- runs ------------------------------------------------------------------------

  datatype Timed = Timed(at: int, event: Event)

  ghost predicate Takes(cfg: Config, s: Accounts, e: Timed, t: Accounts) {
    Fresh(s, e.event) && t == Step(cfg, s, e.at, e.event)
  }

  /** `states` are the states passed through by a run that starts with no accounts. Clocks
      do not run backwards and generated ids are new. */
  ghost predicate Run(cfg: Config, states: seq<Accounts>, events: seq<Timed>) {
    && cfg.Valid()
    && |states| == |events| + 1
    && states[0] == Accounts(map[], map[])
    && (forall k {:trigger events[k]} :: 0 <= k < |events| ==> Takes(cfg, states[k], events[k], states[k + 1]))
    && (forall i, j :: 0 <= i < j < |events| ==> events[i].at <= events[j].at)
  }
}

/** What every run of the account machine keeps: session bookkeeping, permanence of
    revocation, and the agreement of the guards of `validate_session_principal`. */
module AccountRuns {
  import opened Text
  import opened Directory
  import opened Accounts

  // ----- the invariant -------------------------------------------------------------

  predicate LockOk(cfg: Config, u: User) {
    0 <= u.failed <= cfg.threshold && (u.lockedUntil.Some? <==> u.failed == cfg.threshold)
  }

  predicate UserOk(cfg: Config, st: Accounts, uid: Id)
    requires uid in st.users
  {
    var u := st.users[uid];
    && u.revision >= 1
    && ValidOverride(u.timeoutOverride)
    && LockOk(cfg, u)
    && (u.activeSession.Some? ==> ActiveOk(cfg, st, uid, u.activeSession.value))
  }

  predicate ActiveOk(cfg: Config, st: Accounts, uid: Id, sid: Id)
    requires uid in st.users
  {
    && sid in st.sessions
    && st.sessions[sid].userId == uid
    && (st.sessions[sid].revokedAt.None? ==> st.sessions[sid].expiresAt == st.users[uid].expiresAt)
  }

  /** An unrevoked session carries its user's revision, expires no later than the user
      does, and no later than a session opened at time `clock` would. */
  predicate SessionOk(cfg: Config, st: Accounts, sid: Id, clock: int)
    requires sid in st.sessions
  {
    var s := st.sessions[sid];
    && s.userId in st.users
    && s.expiresAt.Some?
    && (s.revokedAt.None? ==>
          var u := st.users[s.userId];
          && s.revision == u.revision
          && u.expiresAt.Some? && s.expiresAt.value <= u.expiresAt.value
          && Timeout(cfg, u).Some? && s.expiresAt.value <= clock + Timeout(cfg, u).value)
  }

  ghost predicate Inv(cfg: Config, st: Accounts, clock: int) {
    && (forall uid :: uid in st.users ==> UserOk(cfg, st, uid))
    && (forall sid :: sid in st.sessions ==> SessionOk(cfg, st, sid, clock))
  }

  // Three shapes of update cover all operations.

  /** Replacing a user record without touching its session fields. */
  lemma TouchKeeps(cfg: Config, st: Accounts, clock: int, now: int, uid: Id, u: User)
    requires Inv(cfg, st, clock) && clock <= now && uid in st.users
    requires LockOk(cfg, u)
    requires u.revision == st.users[uid].revision && u.expiresAt == st.users[uid].expiresAt
    requires u.timeoutOverride == st.users[uid].timeoutOverride && u.activeSession == st.users[uid].activeSession
    ensures Inv(cfg, st.(users := st.users[uid := u]), now)
  {
  }

  lemma RotateKeeps(cfg: Config, st: Accounts, clock: int, now: int, uid: Id, u: User, expiry: int)
    requires Inv(cfg, st, clock) && clock <= now && uid in st.users
    requires LockOk(cfg, u) && ValidOverride(u.timeoutOverride)
    requires u.revision == st.users[uid].revision && u.activeSession == st.users[uid].activeSession
    requires cfg.persist || st.sessions == map[]
    ensures Inv(cfg, RotateAndRevoke(cfg, st, uid, u, expiry, now), now)
  {
    var t := RotateAndRevoke(cfg, st, uid, u, expiry, now);
    assert t.sessions.Keys == st.sessions.Keys;
    assert UserOk(cfg, st, uid);
    forall v | v in t.users ensures UserOk(cfg, t, v) {
      assert UserOk(cfg, st, v);
    }
    forall s | s in t.sessions ensures SessionOk(cfg, t, s, now) {
      assert SessionOk(cfg, st, s, clock);
    }
  }

  lemma CompleteKeeps(cfg: Config, st: Accounts, clock: int, now: int, uid: Id, sid: Id)
    requires cfg.Valid() && Inv(cfg, st, clock) && clock <= now && uid in st.users && sid !in st.sessions
    requires Timeout(cfg, st.users[uid]).Some?
    ensures Inv(cfg, Complete(cfg, st, uid, now, sid), now)
  {
  }

  lemma FailureKeepsLock(cfg: Config, u: User, now: int)
    requires cfg.Valid() && LockOk(cfg, u) && ClearExpiredLock(u, now).lockedUntil.None?
    ensures LockOk(cfg, RegisterFailure(cfg, ClearExpiredLock(u, now), now))
  {
  }

  lemma SignInKeeps(cfg: Config, st: Accounts, clock: int, now: int, a: Attempt)
    requires cfg.Valid() && Inv(cfg, st, clock) && clock <= now && a.sid !in st.sessions
    ensures Inv(cfg, SignIn(cfg, st, now, a), now)
  {
    WeakenClock(cfg, st, clock, now);
    var o := AttemptOutcome(cfg, st, now, a);
    if o != Unknown && o != Locked {
      var uid := a.uid.value;
      assert UserOk(cfg, st, uid);
      if o == SignedIn {
        CompleteKeeps(cfg, st, clock, now, uid, a.sid);
      } else if o == Failed {
        FailureKeepsLock(cfg, st.users[uid], now);
        TouchKeeps(cfg, st, clock, now, uid, RegisterFailure(cfg, ClearExpiredLock(st.users[uid], now), now));
      }
    }
  }

  lemma WeakenClock(cfg: Config, st: Accounts, clock: int, now: int)
    requires Inv(cfg, st, clock) && clock <= now
    ensures Inv(cfg, st, now)
  {
  }

  lemma RevokeSessionKeeps(cfg: Config, st: Accounts, clock: int, sid: Id, now: int)
    requires Inv(cfg, st, clock) && sid in st.sessions
    ensures Inv(cfg, st.(sessions := st.sessions[sid := st.sessions[sid].(revokedAt := Some(now))]), clock)
  {
  }

  lemma RegisterKeeps(cfg: Config, st: Accounts, clock: int, uid: Id, u: User)
    requires cfg.Valid() && Inv(cfg, st, clock) && uid !in st.users
    requires u == NewUser(u.active, u.timeoutOverride, u.mustChange) && ValidOverride(u.timeoutOverride)
    ensures Inv(cfg, st.(users := st.users[uid := u]), clock)
  {
  }

  /** Without a session repository no session is ever stored. */
  lemma NoStoreNoSessions(cfg: Config, st: Accounts, now: int, ev: Event)
    requires !cfg.persist && st.sessions == map[]
    ensures Step(cfg, st, now, ev).sessions == map[]
  {
  }

  predicate Rotating(ev: Event) {
    ev.ChangePassword? || ev.ResetPassword? || ev.SetSessionPolicy? || ev.RevokeUserSessions?
  }

  /** Rotation of a record of which only the password flag and the override changed. */
  lemma RotateUserKeeps(cfg: Config, st: Accounts, clock: int, now: int, uid: Id, mustChange: bool, override: Option<int>, expiry: int)
    requires Inv(cfg, st, clock) && clock <= now && uid in st.users && ValidOverride(override)
    requires cfg.persist || st.sessions == map[]
    ensures Inv(cfg, RotateAndRevoke(cfg, st, uid, st.users[uid].(mustChange := mustChange, timeoutOverride := override), expiry, now), now)
  {
    assert UserOk(cfg, st, uid);
    RotateKeeps(cfg, st, clock, now, uid, st.users[uid].(mustChange := mustChange, timeoutOverride := override), expiry);
  }

  lemma StoredOverrideValid(cfg: Config, st: Accounts, clock: int, uid: Id)
    requires Inv(cfg, st, clock) && uid in st.users
    ensures ValidOverride(st.users[uid].timeoutOverride)
  {
  }

  /** Every rotating operation either changes nothing or rotates such a record. */
  lemma RotatingStepShape(cfg: Config, st: Accounts, now: int, ev: Event)
    returns (mustChange: bool, override: Option<int>, expiry: int)
    requires Rotating(ev) && ev.uid in st.users && ValidOverride(st.users[ev.uid].timeoutOverride)
    ensures ValidOverride(override)
    ensures Step(cfg, st, now, ev) == st
         || Step(cfg, st, now, ev)
            == RotateAndRevoke(cfg, st, ev.uid, st.users[ev.uid].(mustChange := mustChange, timeoutOverride := override), expiry, now)
  {
    var u := st.users[ev.uid];
    mustChange, override, expiry := u.mustChange, u.timeoutOverride, now;
    match ev
    case ChangePassword(uid, _, _) =>
      PasswordSetRotates(cfg, st, now, uid, false);
      mustChange, expiry := false, now + Timeout(cfg, u).value;
    case ResetPassword(uid, _) =>
      PasswordSetRotates(cfg, st, now, uid, true);
      mustChange, expiry := true, now + Timeout(cfg, u).value;
    case SetSessionPolicy(_, o) =>
      if ValidOverride(o) { override, expiry := o, now + Timeout(cfg, u.(timeoutOverride := o)).value; }
    case RevokeUserSessions(_) =>
  }

  lemma RotatingStepKeeps(cfg: Config, st: Accounts, clock: int, now: int, ev: Event)
    requires Inv(cfg, st, clock) && clock <= now
    requires cfg.persist || st.sessions == map[]
    requires Rotating(ev) && ev.uid in st.users
    ensures Inv(cfg, Step(cfg, st, now, ev), now)
  {
    StoredOverrideValid(cfg, st, clock, ev.uid);
    var mustChange, override, expiry := RotatingStepShape(cfg, st, now, ev);
    if Step(cfg, st, now, ev) == st {
      WeakenClock(cfg, st, clock, now);
    } else {
      RotateUserKeeps(cfg, st, clock, now, ev.uid, mustChange, override, expiry);
    }
  }

  lemma StepKeeps(cfg: Config, st: Accounts, clock: int, now: int, ev: Event)
    requires cfg.Valid() && Inv(cfg, st, clock) && clock <= now && Fresh(st, ev)
    requires cfg.persist || st.sessions == map[]
    ensures Inv(cfg, Step(cfg, st, now, ev), now)
  {
    WeakenClock(cfg, st, clock, now);
    if Rotating(ev) {
      if ev.uid in st.users { RotatingStepKeeps(cfg, st, clock, now, ev); }
      return;
    }
    match ev {
      case Register(uid, active, override, mustChange) =>
        if ValidOverride(override) { RegisterKeeps(cfg, st, now, uid, NewUser(active, override, mustChange)); }
      case Login(a) => SignInKeeps(cfg, st, clock, now, a);
      case RevokeSession(sid) =>
        if cfg.persist && sid in st.sessions { RevokeSessionKeeps(cfg, st, now, sid, now); }
      case Unlock(uid) =>
        if uid in st.users {
          TouchKeeps(cfg, st, clock, now, uid, st.users[uid].(failed := 0, lockedUntil := None));
        }
      case SetActive(uid, active) =>
        if uid in st.users {
          assert UserOk(cfg, st, uid);
          TouchKeeps(cfg, st, clock, now, uid, st.users[uid].(active := active));
        }
      case SetMfa(uid, enabled) =>
        if uid in st.users {
          assert UserOk(cfg, st, uid);
          TouchKeeps(cfg, st, clock, now, uid, st.users[uid].(mfaEnabled := enabled));
        }
      case _ =>
    }
  }

  lemma PasswordSetRotates(cfg: Config, st: Accounts, now: int, uid: Id, mustChange: bool)
    requires uid in st.users && ValidOverride(st.users[uid].timeoutOverride)
    ensures Timeout(cfg, st.users[uid]).Some?
    ensures PasswordSet(cfg, st, now, uid, mustChange)
         == RotateAndRevoke(cfg, st, uid, st.users[uid].(mustChange := mustChange),
                            now + Timeout(cfg, st.users[uid]).value, now)
  {
  }

  function ClockAt(events: seq<Timed>, k: nat): int
    requires k <= |events|
  {
    if k == 0 then if events == [] then 0 else events[0].at else events[k - 1].at
  }

  /** Every reachable state satisfies the invariant. */
  lemma {:induction false} ReachableInv(cfg: Config, states: seq<Accounts>, events: seq<Timed>, k: nat)
    requires Run(cfg, states, events) && k <= |events|
    ensures Inv(cfg, states[k], ClockAt(events, k))
    ensures cfg.persist || states[k].sessions == map[]
  {
    if k > 0 {
      ReachableInv(cfg, states, events, k - 1);
      var st := states[k - 1];
      StepKeeps(cfg, st, ClockAt(events, k - 1), events[k - 1].at, events[k - 1].event);
      if !cfg.persist { NoStoreNoSessions(cfg, st, events[k - 1].at, events[k - 1].event); }
    }
  }

  // ----- the redundant guards agree ---------------------------------------------------

  /** In a reachable state with a session store, the revision and user-expiry guards never
      decide: a principal with a session validates exactly when its user is active and the
      session is theirs, unrevoked and unexpired. */
  lemma SessionGuardsAgree(cfg: Config, states: seq<Accounts>, events: seq<Timed>, k: nat, d: Directory, p: Principal, now: int)
    requires Run(cfg, states, events) && k <= |events| && cfg.persist && p.sessionId.Some?
    ensures var st := states[k]; var sid := p.sessionId.value;
            Validate(cfg, st, d, p, now).Some?
            <==> && p.userId in st.users && st.users[p.userId].active
                 && sid in st.sessions && st.sessions[sid].userId == p.userId
                 && st.sessions[sid].revokedAt.None?
                 && st.sessions[sid].expiresAt.Some? && now < st.sessions[sid].expiresAt.value
  {
    ReachableInv(cfg, states, events, k);
    var st := states[k];
    if p.sessionId.value in st.sessions {
      assert SessionOk(cfg, st, p.sessionId.value, ClockAt(events, k));
      if p.userId in st.users { assert UserOk(cfg, st, p.userId); }
    }
  }

  /** Without a stored session a principal validates exactly when its user is active, has
      neither expired nor signed in or been renewed since, and has the same revision. */
  lemma SessionlessGuards(cfg: Config, states: seq<Accounts>, events: seq<Timed>, k: nat, d: Directory, p: Principal, now: int)
    requires Run(cfg, states, events) && k <= |events| && (!cfg.persist || p.sessionId.None?) && p.revision >= 1
    ensures var st := states[k];
            Validate(cfg, st, d, p, now).Some?
            <==> && p.userId in st.users && st.users[p.userId].active
                 && p.expiresAt.Some? && p.expiresAt == st.users[p.userId].expiresAt && now < p.expiresAt.value
                 && p.revision == st.users[p.userId].revision
  {
    ReachableInv(cfg, states, events, k);
    if p.userId in states[k].users { assert UserOk(cfg, states[k], p.userId); }
  }

  /** A validated principal carries the user's current revision and password flag, and the
      expiry of the session that it stands for, or else of the user. */
  lemma ValidatedIsCurrent(cfg: Config, states: seq<Accounts>, events: seq<Timed>, k: nat, d: Directory, p: Principal, now: int)
    requires Run(cfg, states, events) && k <= |events| && Validate(cfg, states[k], d, p, now).Some?
    ensures var st, v := states[k], Validate(cfg, states[k], d, p, now).value;
            && p.userId in st.users && v.userId == p.userId
            && v.mustChange == st.users[p.userId].mustChange && v.revision == st.users[p.userId].revision
            && v.expiresAt.Some? && now < v.expiresAt.value
            && (cfg.persist && p.sessionId.Some? ==>
                  v.sessionId == p.sessionId && p.sessionId.value in st.sessions
                  && v.expiresAt == st.sessions[p.sessionId.value].expiresAt)
            && (!cfg.persist || (p.sessionId.None? && st.users[p.userId].activeSession.None?) ==>
                  v.expiresAt == st.users[p.userId].expiresAt)
  {
    ReachableInv(cfg, states, events, k);
    assert UserOk(cfg, states[k], p.userId);
    var active := states[k].users[p.userId].activeSession;
    if active.Some? { assert ActiveOk(cfg, states[k], p.userId, active.value); }
  }

  /** A store that keeps it remembers the session of the last sign-in: a principal built
      without asking for a session stands for that one. */
  lemma LastSessionIsRemembered(cfg: Config, states: seq<Accounts>, events: seq<Timed>, k: nat, a: Attempt, d: Directory)
    requires Run(cfg, states, events) && k < |events| && events[k].event == Login(a)
    requires AttemptOutcome(cfg, states[k], events[k].at, a) == SignedIn && cfg.persist
    ensures a.uid.value in states[k + 1].users
    ensures BuildPrincipal(cfg, states[k + 1], d, a.uid.value, None).sessionId == if cfg.keepActive then Some(a.sid) else None
  {
    assert Takes(cfg, states[k], events[k], states[k + 1]);
  }

  /** The same agreement, as a statement about the stored records. */
  lemma UnrevokedSessionsAreCurrent(cfg: Config, states: seq<Accounts>, events: seq<Timed>, k: nat, sid: Id)
    requires Run(cfg, states, events) && k <= |events|
    requires sid in states[k].sessions && states[k].sessions[sid].revokedAt.None?
    ensures var st := states[k]; var s := st.sessions[sid];
            && s.userId in st.users && s.revision == st.users[s.userId].revision
            && s.expiresAt.Some? && st.users[s.userId].expiresAt.Some?
            && s.expiresAt.value <= st.users[s.userId].expiresAt.value
  {
    ReachableInv(cfg, states, events, k);
    assert SessionOk(cfg, states[k], sid, ClockAt(events, k));
  }

  // ----- revocation is permanent --------------------------------------------------------

  /** `p` cannot be a later login: its revision is at most the stored one and its session
      id, if it has one that counts, is already stored. */
  predicate Captured(cfg: Config, st: Accounts, p: Principal) {
    && p.userId in st.users
    && Effective(p.revision) <= Effective(st.users[p.userId].revision)
    && (cfg.persist && p.sessionId.Some? ==> p.sessionId.value in st.sessions)
  }

  /** `p` can never validate again: its revision is out of date, or the session that is
      consulted instead is revoked. */
  predicate Dead(cfg: Config, st: Accounts, p: Principal) {
    && p.userId in st.users
    && if cfg.persist && p.sessionId.Some?
       then var sid := p.sessionId.value;
            sid in st.sessions && (st.sessions[sid].userId != p.userId || st.sessions[sid].revokedAt.Some?)
       else Effective(p.revision) < Effective(st.users[p.userId].revision)
  }

  predicate UserExtends(s: Accounts, t: Accounts, u: Id)
    requires u in s.users
  {
    u in t.users && Effective(s.users[u].revision) <= Effective(t.users[u].revision)
  }

  predicate SessionExtends(s: Accounts, t: Accounts, x: Id)
    requires x in s.sessions
  {
    && x in t.sessions
    && t.sessions[x].userId == s.sessions[x].userId
    && (s.sessions[x].revokedAt.Some? ==> t.sessions[x].revokedAt.Some?)
  }

  /** Revisions never decrease, sessions are never deleted or handed over, and revocation
      marks are never removed. */
  ghost predicate Extends(s: Accounts, t: Accounts) {
    && (forall u :: u in s.users ==> UserExtends(s, t, u))
    && (forall x :: x in s.sessions ==> SessionExtends(s, t, x))
  }

  lemma ExtendsTransitive(r: Accounts, s: Accounts, t: Accounts)
    requires Extends(r, s) && Extends(s, t)
    ensures Extends(r, t)
  {
  }

  lemma SignInExtends(cfg: Config, st: Accounts, now: int, a: Attempt)
    requires a.sid !in st.sessions
    ensures Extends(st, SignIn(cfg, st, now, a))
  {
  }

  lemma RotationExtends(cfg: Config, st: Accounts, uid: Id, u: User, expiry: int, now: int)
    requires uid in st.users && u.revision == st.users[uid].revision
    ensures Extends(st, RotateAndRevoke(cfg, st, uid, u, expiry, now))
  {
  }

  lemma PasswordSetExtends(cfg: Config, st: Accounts, now: int, uid: Id, mustChange: bool)
    requires uid in st.users
    ensures Extends(st, PasswordSet(cfg, st, now, uid, mustChange))
  {
  }

  lemma PolicyExtends(cfg: Config, st: Accounts, now: int, uid: Id, override: Option<int>)
    requires uid in st.users
    ensures Extends(st, Step(cfg, st, now, SetSessionPolicy(uid, override)))
  {
  }

  lemma RotatingStepExtends(cfg: Config, st: Accounts, now: int, ev: Event)
    requires Rotating(ev) && ev.uid in st.users
    ensures Extends(st, Step(cfg, st, now, ev))
  {
    if ev.RevokeUserSessions? {
      RotationExtends(cfg, st, ev.uid, st.users[ev.uid], now, now);
    } else if ev.SetSessionPolicy? {
      PolicyExtends(cfg, st, now, ev.uid, ev.override);
    } else {
      PasswordSetExtends(cfg, st, now, ev.uid, ev.ResetPassword?);
    }
  }

  lemma StepExtends(cfg: Config, st: Accounts, now: int, ev: Event)
    requires Fresh(st, ev)
    ensures Extends(st, Step(cfg, st, now, ev))
  {
    if Rotating(ev) {
      if ev.uid in st.users { RotatingStepExtends(cfg, st, now, ev); }
    } else if ev.Login? {
      SignInExtends(cfg, st, now, ev.attempt);
    }
  }

  lemma {:induction false} RunExtends(cfg: Config, states: seq<Accounts>, events: seq<Timed>, i: nat, j: nat)
    requires Run(cfg, states, events) && i <= j <= |events|
    ensures Extends(states[i], states[j])
  {
    if i < j {
      RunExtends(cfg, states, events, i, j - 1);
      var s := states[j - 1];
      StepExtends(cfg, s, events[j - 1].at, events[j - 1].event);
      ExtendsTransitive(states[i], s, Step(cfg, s, events[j - 1].at, events[j - 1].event));
    }
  }

  lemma CapturedLater(cfg: Config, s: Accounts, t: Accounts, p: Principal)
    requires Extends(s, t) && Captured(cfg, s, p)
    ensures Captured(cfg, t, p)
  {
  }

  lemma DeadLater(cfg: Config, s: Accounts, t: Accounts, p: Principal)
    requires Extends(s, t) && Dead(cfg, s, p)
    ensures Dead(cfg, t, p)
  {
  }

  lemma RotationKills(cfg: Config, st: Accounts, now: int, ev: Event, p: Principal)
    requires RotatesFor(cfg, st, ev, p.userId) && Captured(cfg, st, p)
    ensures Dead(cfg, Step(cfg, st, now, ev), p)
  {
  }

  lemma DeadNeverValidates(cfg: Config, st: Accounts, d: Directory, p: Principal, now: int)
    requires Dead(cfg, st, p)
    ensures Validate(cfg, st, d, p, now) == None
  {
  }

  /** A principal, however its cached permissions have aged, that still carries the
      credentials with which it was built. */
  predicate SameCredentials(p: Principal, q: Principal) {
    p.userId == q.userId && p.revision == q.revision && p.sessionId == q.sessionId
  }

  lemma BuiltIsCaptured(cfg: Config, states: seq<Accounts>, events: seq<Timed>, i: nat, d: Directory, uid: Id, requested: Option<Id>)
    requires Run(cfg, states, events) && i <= |events| && uid in states[i].users
    requires requested.Some? ==> requested.value in states[i].sessions
    ensures Captured(cfg, states[i], BuildPrincipal(cfg, states[i], d, uid, requested))
  {
    ReachableInv(cfg, states, events, i);
    assert UserOk(cfg, states[i], uid);
  }

  /** After a password change or reset, a session-policy change or a revocation of all
      sessions at step `k`, no principal built at or before that moment validates in any
      later state, at any time, whatever the directory holds. */
  lemma RevocationIsPermanent(cfg: Config, states: seq<Accounts>, events: seq<Timed>, i: nat, k: nat, j: nat,
                              uid: Id, requested: Option<Id>, d: Directory, p: Principal, d': Directory, now: int)
    requires Run(cfg, states, events) && i <= k < j <= |events|
    requires uid in states[i].users
    requires requested.Some? ==> requested.value in states[i].sessions
    requires SameCredentials(p, BuildPrincipal(cfg, states[i], d, uid, requested))
    requires RotatesFor(cfg, states[k], events[k].event, uid)
    ensures Validate(cfg, states[j], d', p, now) == None
  {
    var before, rotated, later := states[k], states[k + 1], states[j];
    BuiltIsCaptured(cfg, states, events, i, d, uid, requested);
    RunExtends(cfg, states, events, i, k);
    CapturedLater(cfg, states[i], before, p);
    RotationKills(cfg, before, events[k].at, events[k].event, p);
    RunExtends(cfg, states, events, k + 1, j);
    DeadLater(cfg, rotated, later, p);
    DeadNeverValidates(cfg, later, d', p, now);
  }

  /** A session id that was revoked singly never validates again, in any principal. */
  lemma RevokedSessionNeverValidates(cfg: Config, states: seq<Accounts>, events: seq<Timed>, k: nat, j: nat, sid: Id,
                                     d: Directory, p: Principal, now: int)
    requires Run(cfg, states, events) && k < j <= |events| && cfg.persist
    requires events[k].event == RevokeSession(sid) && sid in states[k].sessions
    requires p.sessionId == Some(sid)
    ensures Validate(cfg, states[j], d, p, now) == None
  {
    var revoked, later := states[k + 1], states[j];
    assert revoked.sessions[sid].revokedAt.Some?;
    RunExtends(cfg, states, events, k + 1, j);
    assert SessionExtends(revoked, later, sid);
  }

  // ----- what the operations do -----------------------------------------------------------

  /** How long a session of this user lasts. */
  function Lasts(cfg: Config, override: Option<int>): int {
    if override.Some? then override.value * 60_000_000 else cfg.defaultTimeout
  }

  /** The user's record has become `u` with the next revision and this expiry; if sessions are
      stored, all of the user's are revoked, those that were not yet at this instant; nothing
      else has changed. */
  ghost predicate Renewed(cfg: Config, s: Accounts, t: Accounts, uid: Id, u: User, ends: int, now: int) {
    && t.users == s.users[uid := u.(revision := u.revision + 1, expiresAt := Some(ends))]
    && t.sessions.Keys == s.sessions.Keys
    && forall sid :: sid in s.sessions ==>
         t.sessions[sid] == if s.sessions[sid].userId == uid && s.sessions[sid].revokedAt.None?
                            then s.sessions[sid].(revokedAt := Some(now)) else s.sessions[sid]
  }

  lemma RotationRenews(cfg: Config, st: Accounts, uid: Id, u: User, ends: int, now: int)
    requires u.revision >= 1 && (cfg.persist || st.sessions == map[])
    ensures Renewed(cfg, st, RotateAndRevoke(cfg, st, uid, u, ends, now), uid, u, ends, now)
  {
  }

  /** In every run: a password change with the right current password and an acceptable new
      one, a reset with an acceptable one, a session policy within five minutes and a day, and
      the revocation of all sessions take effect on an existing user, and revoke; the password
      operations and the policy let the next expiry lie one timeout ahead. Otherwise they
      change nothing. */
  lemma RotationsAreJudged(cfg: Config, states: seq<Accounts>, events: seq<Timed>, k: nat)
    requires Run(cfg, states, events) && k < |events|
    ensures var s, t, now := states[k], states[k + 1], events[k].at;
            match events[k].event
            case ChangePassword(uid, currentOk, newOk) =>
              if uid in s.users && currentOk && newOk
              then Renewed(cfg, s, t, uid, s.users[uid].(mustChange := false), now + Lasts(cfg, s.users[uid].timeoutOverride), now)
              else t == s
            case ResetPassword(uid, newOk) =>
              if uid in s.users && newOk
              then Renewed(cfg, s, t, uid, s.users[uid].(mustChange := true), now + Lasts(cfg, s.users[uid].timeoutOverride), now)
              else t == s
            case SetSessionPolicy(uid, override) =>
              if uid in s.users && (override.Some? ==> 5 <= override.value <= 24 * 60)
              then Renewed(cfg, s, t, uid, s.users[uid].(timeoutOverride := override), now + Lasts(cfg, override), now)
              else t == s
            case RevokeUserSessions(uid) =>
              if uid in s.users then Renewed(cfg, s, t, uid, s.users[uid], now, now) else t == s
            case _ => true
  {
    var s, now := states[k], events[k].at;
    assert Takes(cfg, s, events[k], states[k + 1]);
    ReachableInv(cfg, states, events, k);
    match events[k].event
    case ChangePassword(uid, _, _) =>
      if uid in s.users {
        assert UserOk(cfg, s, uid);
        RotationRenews(cfg, s, uid, s.users[uid].(mustChange := false), now + Lasts(cfg, s.users[uid].timeoutOverride), now);
      }
    case ResetPassword(uid, _) =>
      if uid in s.users {
        assert UserOk(cfg, s, uid);
        RotationRenews(cfg, s, uid, s.users[uid].(mustChange := true), now + Lasts(cfg, s.users[uid].timeoutOverride), now);
      }
    case SetSessionPolicy(uid, override) =>
      if uid in s.users {
        assert UserOk(cfg, s, uid);
        RotationRenews(cfg, s, uid, s.users[uid].(timeoutOverride := override), now + Lasts(cfg, override), now);
      }
    case RevokeUserSessions(uid) =>
      if uid in s.users {
        assert UserOk(cfg, s, uid);
        RotationRenews(cfg, s, uid, s.users[uid], now, now);
      }
    case _ =>
  }

  /** In every run: a registration with an acceptable session policy stores a user who has
      neither failed nor signed in; unlocking, (de)activating and the second factor change
      that field of an existing user; a stored session that is revoked is marked. Otherwise
      these operations change nothing. */
  lemma RecordsAreSet(cfg: Config, states: seq<Accounts>, events: seq<Timed>, k: nat)
    requires Run(cfg, states, events) && k < |events|
    ensures var s, t, now := states[k], states[k + 1], events[k].at;
            match events[k].event
            case Register(uid, active, override, mustChange) =>
              uid !in s.users
              && if override.Some? ==> 5 <= override.value <= 24 * 60
                 then t == s.(users := s.users[uid := User(active, 0, None, None, 1, override, None, false, mustChange)])
                 else t == s
            case Unlock(uid) =>
              if uid in s.users then t == s.(users := s.users[uid := s.users[uid].(failed := 0, lockedUntil := None)]) else t == s
            case SetActive(uid, active) =>
              if uid in s.users then t == s.(users := s.users[uid := s.users[uid].(active := active)]) else t == s
            case SetMfa(uid, enabled) =>
              if uid in s.users then t == s.(users := s.users[uid := s.users[uid].(mfaEnabled := enabled)]) else t == s
            case RevokeSession(sid) =>
              if sid in s.sessions then t == s.(sessions := s.sessions[sid := s.sessions[sid].(revokedAt := Some(now))]) else t == s
            case _ => true
  {
    assert Takes(cfg, states[k], events[k], states[k + 1]);
    ReachableInv(cfg, states, events, k);
  }

  /** Once an account is deactivated it can neither be signed in to nor used; a new active
      account can be signed in to at once. */
  lemma OnlyActiveAccountsWork(cfg: Config, states: seq<Accounts>, events: seq<Timed>, k: nat, uid: Id,
                               a: Attempt, d: Directory, p: Principal, now: int)
    requires Run(cfg, states, events) && k < |events| && a.uid == Some(uid) && p.userId == uid
    ensures events[k].event == SetActive(uid, false) ==>
              AttemptOutcome(cfg, states[k + 1], now, a) == Unknown && Validate(cfg, states[k + 1], d, p, now).None?
    ensures events[k].event == Register(uid, true, None, false) && (a.federated || a.passwordOk) ==>
              AttemptOutcome(cfg, states[k + 1], now, a) == SignedIn
  {
    RecordsAreSet(cfg, states, events, k);
  }

  /** The operation is about the user: it names the user, or a session of the user. */
  predicate IsAbout(s: Accounts, e: Event, uid: Id) {
    match e
    case Register(u, _, _, _) => u == uid
    case Login(a) => a.uid == Some(uid)
    case ChangePassword(u, _, _) => u == uid
    case ResetPassword(u, _) => u == uid
    case SetSessionPolicy(u, _) => u == uid
    case RevokeUserSessions(u) => u == uid
    case RevokeSession(sid) => sid in s.sessions && s.sessions[sid].userId == uid
    case Unlock(u) => u == uid
    case SetActive(u, _) => u == uid
    case SetMfa(u, _) => u == uid
  }

  /** An operation about somebody else leaves a user's record and sessions as they are. */
  lemma OthersAreUntouched(cfg: Config, s: Accounts, e: Timed, t: Accounts, uid: Id)
    requires Takes(cfg, s, e, t) && !IsAbout(s, e.event, uid)
    ensures uid in t.users <==> uid in s.users
    ensures uid in s.users ==> t.users[uid] == s.users[uid]
    ensures forall sid :: sid in s.sessions && s.sessions[sid].userId == uid ==> sid in t.sessions && t.sessions[sid] == s.sessions[sid]
    ensures forall sid :: sid in t.sessions && t.sessions[sid].userId == uid ==> sid in s.sessions
  {
  }

  // ----- what a sign-in gives -------------------------------------------------------------

  /** A sign-in at step `k` gives a session of exactly one timeout, the minutes of the user's
      override or else the configured time: the principal built for it validates, in the state
      the sign-in leaves, before the timeout runs out and never from then on. */
  lemma SignInLastsOneTimeout(cfg: Config, states: seq<Accounts>, events: seq<Timed>, k: nat, a: Attempt,
                              d: Directory, d': Directory, now: int)
    requires Run(cfg, states, events) && k < |events| && events[k].event == Login(a)
    requires AttemptOutcome(cfg, states[k], events[k].at, a) == SignedIn
    ensures var uid := a.uid.value; var override := states[k].users[uid].timeoutOverride;
            var ends := events[k].at + Lasts(cfg, override);
            var p := BuildPrincipal(cfg, states[k + 1], d, uid, if cfg.persist then Some(a.sid) else None);
            && uid in states[k + 1].users
            && p.expiresAt == Some(ends)
            && (Validate(cfg, states[k + 1], d', p, now).Some? <==> now < ends)
  {
    var e, s := events[k], states[k];
    assert Takes(cfg, s, e, states[k + 1]);
    ReachableInv(cfg, states, events, k);
    assert UserOk(cfg, s, a.uid.value);
  }
}

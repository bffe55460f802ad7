/** The operations of `AuthService` in their own form: records are fetched, changed field by
    field and written back. Each method's effect is the corresponding `Accounts.Step`. */
module AuthService {
  import opened Text
  import opened Directory
  import opened Accounts

  class AuthService {
    const cfg: Config
    var users: map<Id, User>
    var sessions: map<Id, AuthSession>

    function State(): Accounts
      reads this
    {
      Accounts(users, sessions)
    }

    constructor (cfg: Config)
      ensures this.cfg == cfg && State() == Accounts(map[], map[])
    {
      this.cfg := cfg;
      users := map[];
      sessions := map[];
    }

    method RegisterUser(now: int, uid: Id, active: bool, override: Option<int>, mustChange: bool) returns (ok: bool)
      modifies this
      ensures State() == Step(cfg, old(State()), now, Register(uid, active, override, mustChange))
      ensures ok <==> ValidOverride(override)
    {
      if override.Some? && !(5 <= override.value <= 1440) {
        return false;
      }
      var user := User(active, 0, None, None, 1, None, None, false, false);
      user := user.(mustChange := mustChange);
      user := user.(timeoutOverride := override);
      users := users[uid := user];
      return true;
    }

    /** `_register_failed_login` */
    method RegisterFailedLogin(uid: Id, u: User, now: int)
      modifies this
      ensures users == old(users)[uid := RegisterFailure(cfg, u, now)] && sessions == old(sessions)
    {
      var user := u.(failed := u.failed + 1);
      if user.failed >= cfg.threshold {
        user := user.(lockedUntil := Some(now + cfg.lockLength));
      }
      users := users[uid := user];
    }

    /** `_next_session_expiry`; `None` when the stored override is refused. */
    method NextSessionExpiry(u: User, now: int) returns (expiry: Option<int>)
      ensures expiry == match Timeout(cfg, u) case None => None case Some(t) => Some(now + t)
    {
      match u.timeoutOverride
      case None =>
        expiry := Some(now + cfg.defaultTimeout);
      case Some(minutes) =>
        if minutes < 5 || minutes > 1440 {
          expiry := None;
        } else {
          expiry := Some(now + minutes * MINUTE);
        }
    }

    /** `_complete_successful_authentication` */
    method CompleteSuccessfulAuthentication(uid: Id, u: User, now: int, sid: Id) returns (ok: bool)
      modifies this
      ensures ok <==> Timeout(cfg, u).Some?
      ensures !ok ==> State() == old(State())
      ensures ok ==> State() == Complete(cfg, old(State()).(users := old(users)[uid := u]), uid, now, sid)
    {
      var user := u.(failed := 0, lockedUntil := None);
      var expiry := NextSessionExpiry(user, now);
      if expiry.None? {
        return false;
      }
      user := user.(expiresAt := expiry);
      if cfg.persist {
        var revision := Effective(user.revision);
        if revision < 1 {
          revision := 1;
        }
        user := user.(activeSession := if cfg.keepActive then Some(sid) else None);
        sessions := sessions[sid := AuthSession(uid, revision, user.expiresAt, None)];
      } else {
        user := user.(activeSession := None);
      }
      users := users[uid := user];
      return true;
    }

    /** `authenticate` (`federated` false) and `authenticate_federated` (`federated` true). */
    method Authenticate(now: int, a: Attempt) returns (outcome: Outcome)
      modifies this
      ensures State() == SignIn(cfg, old(State()), now, a)
      ensures outcome == AttemptOutcome(cfg, old(State()), now, a)
    {
      if a.uid.None? || a.uid.value !in users || !users[a.uid.value].active {
        return Unknown;
      }
      var uid := a.uid.value;
      var user := users[uid];
      if user.lockedUntil.Some? && user.lockedUntil.value <= now {
        user := user.(failed := 0);
        user := user.(lockedUntil := None);
        users := users[uid := user];
      }
      if user.lockedUntil.Some? && user.lockedUntil.value > now {
        assert users == old(users);
        return Locked;
      }
      assert user == ClearExpiredLock(old(users)[uid], now);
      assert users == old(users)[uid := user];
      if !a.federated && !a.passwordOk {
        RegisterFailedLogin(uid, user, now);
        return Failed;
      }
      if user.mfaEnabled && !a.mfaOk {
        RegisterFailedLogin(uid, user, now);
        return Failed;
      }
      var ok := CompleteSuccessfulAuthentication(uid, user, now, a.sid);
      return if ok then SignedIn else Misconfigured;
    }

    /** `_revoke_all_persisted_sessions`: over the user's sessions in any order. */
    method RevokeAllPersistedSessions(uid: Id, now: int)
      modifies this`sessions
      ensures sessions == if cfg.persist then RevokeAllOf(old(sessions), uid, now) else old(sessions)
    {
      if !cfg.persist {
        return;
      }
      var todo := set s | s in sessions && sessions[s].userId == uid;
      while todo != {}
        invariant sessions.Keys == old(sessions).Keys
        invariant forall s :: s in todo ==> s in sessions && sessions[s] == old(sessions)[s]
        invariant forall s :: s in sessions && s !in todo ==> sessions[s] == RevokeAllOf(old(sessions), uid, now)[s]
        decreases todo
      {
        var s :| s in todo;
        if sessions[s].revokedAt.None? {
          sessions := sessions[s := sessions[s].(revokedAt := Some(now))];
        }
        todo := todo - {s};
      }
    }

    /** `_rotate_session_revision` */
    method RotateSessionRevision(u: User) returns (r: User)
      ensures r == Rotate(u)
    {
      var revision := if u.revision == 0 then 1 else u.revision;
      if revision < 1 {
        revision := 1;
      }
      r := u.(revision := revision + 1);
    }

    /** The shared body of `change_password` and `reset_user_password`. */
    method SetPassword(now: int, uid: Id, mustChange: bool) returns (ok: bool)
      requires uid in users
      modifies this
      ensures State() == PasswordSet(cfg, old(State()), now, uid, mustChange)
      ensures ok <==> Timeout(cfg, old(users)[uid]).Some?
    {
      var user := users[uid].(mustChange := mustChange);
      user := RotateSessionRevision(user);
      var expiry := NextSessionExpiry(user, now);
      if expiry.None? {
        return false;
      }
      user := user.(expiresAt := expiry);
      RevokeAllPersistedSessions(uid, now);
      users := users[uid := user];
      return true;
    }

    method ChangeOwnPassword(now: int, uid: Id, currentOk: bool, newOk: bool) returns (ok: bool)
      modifies this
      ensures State() == Step(cfg, old(State()), now, ChangePassword(uid, currentOk, newOk))
      ensures ok <==> RotatesFor(cfg, old(State()), ChangePassword(uid, currentOk, newOk), uid)
    {
      if uid !in users || !currentOk || !newOk {
        return false;
      }
      ok := SetPassword(now, uid, false);
    }

    method ResetUserPassword(now: int, uid: Id, newOk: bool) returns (ok: bool)
      modifies this
      ensures State() == Step(cfg, old(State()), now, ResetPassword(uid, newOk))
      ensures ok <==> RotatesFor(cfg, old(State()), ResetPassword(uid, newOk), uid)
    {
      if uid !in users || !newOk {
        return false;
      }
      ok := SetPassword(now, uid, true);
    }

    method SetUserSessionPolicy(now: int, uid: Id, override: Option<int>) returns (ok: bool)
      modifies this
      ensures State() == Step(cfg, old(State()), now, SetSessionPolicy(uid, override))
      ensures ok <==> RotatesFor(cfg, old(State()), SetSessionPolicy(uid, override), uid)
    {
      if uid !in users || (override.Some? && (override.value < 5 || override.value > 1440)) {
        return false;
      }
      var user := users[uid].(timeoutOverride := override);
      user := RotateSessionRevision(user);
      var expiry := NextSessionExpiry(user, now);
      user := user.(expiresAt := expiry);
      RevokeAllPersistedSessions(uid, now);
      users := users[uid := user];
      return true;
    }

    method RevokeAllUserSessions(now: int, uid: Id) returns (ok: bool)
      modifies this
      ensures State() == Step(cfg, old(State()), now, RevokeUserSessions(uid))
      ensures ok <==> RotatesFor(cfg, old(State()), RevokeUserSessions(uid), uid)
    {
      if uid !in users {
        return false;
      }
      var user := RotateSessionRevision(users[uid]);
      user := user.(expiresAt := Some(now));
      RevokeAllPersistedSessions(uid, now);
      users := users[uid := user];
      return true;
    }

    method RevokeOneSession(now: int, sid: Id) returns (ok: bool)
      modifies this`sessions
      ensures State() == Step(cfg, old(State()), now, RevokeSession(sid))
      ensures ok <==> cfg.persist && sid in old(sessions)
    {
      if !cfg.persist || sid !in sessions {
        return false;
      }
      sessions := sessions[sid := sessions[sid].(revokedAt := Some(now))];
      return true;
    }

    method UnlockUserAccount(now: int, uid: Id) returns (ok: bool)
      modifies this`users
      ensures State() == Step(cfg, old(State()), now, Unlock(uid)) && (ok <==> uid in old(users))
    {
      if uid !in users {
        return false;
      }
      var user := users[uid].(failed := 0);
      user := user.(lockedUntil := None);
      users := users[uid := user];
      return true;
    }

    method SetUserActive(now: int, uid: Id, active: bool) returns (ok: bool)
      modifies this`users
      ensures State() == Step(cfg, old(State()), now, SetActive(uid, active)) && (ok <==> uid in old(users))
    {
      if uid !in users {
        return false;
      }
      users := users[uid := users[uid].(active := active)];
      return true;
    }

    method SetUserMfa(now: int, uid: Id, enabled: bool) returns (ok: bool)
      modifies this`users
      ensures State() == Step(cfg, old(State()), now, SetMfa(uid, enabled)) && (ok <==> uid in old(users))
    {
      if uid !in users {
        return false;
      }
      users := users[uid := users[uid].(mfaEnabled := enabled)];
      return true;
    }
  }
}

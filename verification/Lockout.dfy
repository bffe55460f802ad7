/** The lockout arithmetic of `_register_failed_login`, over whole runs with password and
    federated attempts mixed with every other operation. */
module Lockout {
  import opened Text
  import opened Arithmetic
  import opened Directory
  import opened Accounts
  import opened AccountRuns

  /** In every reachable state the failure counter stands at the threshold exactly when a
      lock is set, and never above it. */
  lemma LockedExactlyAtThreshold(cfg: Config, states: seq<Accounts>, events: seq<Timed>, k: nat, uid: Id)
    requires Run(cfg, states, events) && k <= |events| && uid in states[k].users
    ensures var u := states[k].users[uid];
            0 <= u.failed <= cfg.threshold && (u.lockedUntil.Some? <==> u.failed == cfg.threshold)
  {
    ReachableInv(cfg, states, events, k);
    assert UserOk(cfg, states[k], uid);
  }

  // ----- attempts in terms of what was typed and stored --------------------------------------------

  predicate LockRuns(u: User, now: int) {
    u.lockedUntil.Some? && now < u.lockedUntil.value
  }

  /** The password, unless the identity provider vouches for the user, and the code of an
      account with a second factor were right. */
  predicate RightCredentials(u: User, a: Attempt) {
    (a.federated || a.passwordOk) && (u.mfaEnabled ==> a.mfaOk)
  }

  /** The operation is an attempt on the active account `uid` while no lock runs. */
  predicate Evaluated(s: Accounts, e: Timed, uid: Id) {
    && e.event.Login? && e.event.attempt.uid == Some(uid)
    && uid in s.users && s.users[uid].active && !LockRuns(s.users[uid], e.at)
  }

  /** The operation is an evaluated attempt on `uid` with a wrong password or code. */
  predicate Fails(s: Accounts, e: Timed, uid: Id) {
    Evaluated(s, e, uid) && !RightCredentials(s.users[uid], e.event.attempt)
  }

  /** The operation signs `uid` in or unlocks the account. */
  predicate Resets(s: Accounts, e: Timed, uid: Id) {
    || (e.event.Unlock? && e.event.uid == uid)
    || (Evaluated(s, e, uid) && RightCredentials(s.users[uid], e.event.attempt))
  }

  /** In every reachable state an attempt signs in if and only if the account exists and is
      active, no lock runs, and the credentials are right. It counts as a failure if and only
      if the account exists and is active, no lock runs, and they are wrong. All other attempts
      change nothing. */
  lemma AttemptsAreJudged(cfg: Config, states: seq<Accounts>, events: seq<Timed>, k: nat, a: Attempt, now: int)
    requires Run(cfg, states, events) && k <= |events|
    ensures var st := states[k]; var outcome := AttemptOutcome(cfg, st, now, a);
            var open := a.uid.Some? && a.uid.value in st.users && st.users[a.uid.value].active && !LockRuns(st.users[a.uid.value], now);
            && (outcome == SignedIn <==> open && RightCredentials(st.users[a.uid.value], a))
            && (outcome == Failed <==> open && !RightCredentials(st.users[a.uid.value], a))
            && (!open ==> SignIn(cfg, st, now, a) == st)
  {
    ReachableInv(cfg, states, events, k);
    if a.uid.Some? && a.uid.value in states[k].users { assert UserOk(cfg, states[k], a.uid.value); }
  }

  /** A failure adds one to the counter, or starts it anew after a lock that has run out; the
      failure that reaches the threshold locks the account for exactly the lock length, and no
      other does. A sign-in clears counter and lock. */
  lemma AttemptsAreCounted(cfg: Config, states: seq<Accounts>, events: seq<Timed>, k: nat, uid: Id)
    requires Run(cfg, states, events) && k < |events| && uid in states[k].users
    ensures Fails(states[k], events[k], uid) ==>
              var n := (if states[k].users[uid].lockedUntil.Some? then 0 else states[k].users[uid].failed) + 1;
              && uid in states[k + 1].users && states[k + 1].users[uid].failed == n
              && states[k + 1].users[uid].lockedUntil == if n == cfg.threshold then Some(events[k].at + cfg.lockLength) else None
    ensures Resets(states[k], events[k], uid) ==>
              uid in states[k + 1].users && states[k + 1].users[uid].failed == 0 && states[k + 1].users[uid].lockedUntil == None
  {
    assert Takes(cfg, states[k], events[k], states[k + 1]);
    ReachableInv(cfg, states, events, k);
    assert UserOk(cfg, states[k], uid);
  }

  ghost predicate NoReset(cfg: Config, states: seq<Accounts>, events: seq<Timed>, uid: Id, i: nat, j: nat)
    requires j < |events| <= |states|
  {
    forall k {:trigger events[k]} :: i <= k <= j ==> !Resets(states[k], events[k], uid)
  }

  /** In every reachable state, right credentials for an active account are refused only
      while its lock is running; in particular no stored policy makes a sign-in fail. */
  lemma RightCredentialsSignIn(cfg: Config, states: seq<Accounts>, events: seq<Timed>, k: nat, a: Attempt, now: int)
    requires Run(cfg, states, events) && k <= |events| && a.uid.Some? && a.uid.value in states[k].users
    requires states[k].users[a.uid.value].active && (a.federated || a.passwordOk)
    requires states[k].users[a.uid.value].mfaEnabled ==> a.mfaOk
    ensures var u := states[k].users[a.uid.value];
            AttemptOutcome(cfg, states[k], now, a) == (if u.lockedUntil.Some? && now < u.lockedUntil.value then Locked else SignedIn)
  {
    ReachableInv(cfg, states, events, k);
    assert UserOk(cfg, states[k], a.uid.value);
  }

  /** After an unlock, right credentials sign in at once. */
  lemma UnlockLetsIn(cfg: Config, states: seq<Accounts>, events: seq<Timed>, k: nat, a: Attempt, now: int)
    requires Run(cfg, states, events) && k < |events| && a.uid.Some? && events[k].event == Unlock(a.uid.value)
    requires a.uid.value in states[k].users && states[k].users[a.uid.value].active && (a.federated || a.passwordOk)
    requires states[k].users[a.uid.value].mfaEnabled ==> a.mfaOk
    ensures AttemptOutcome(cfg, states[k + 1], now, a) == SignedIn
  {
    assert Takes(cfg, states[k], events[k], states[k + 1]);
    RightCredentialsSignIn(cfg, states, events, k + 1, a, now);
  }

  /** How many of the operations `i` up to `j` are evaluated failures of `uid`. */
  function Failures(cfg: Config, states: seq<Accounts>, events: seq<Timed>, uid: Id, i: nat, j: nat): nat
    requires i <= j <= |events| <= |states|
    decreases j - i
  {
    if i == j then 0
    else (if Fails(states[i], events[i], uid) then 1 else 0) + Failures(cfg, states, events, uid, i + 1, j)
  }

  predicate SameLock(s: Accounts, t: Accounts, uid: Id) {
    && uid in s.users && uid in t.users
    && s.users[uid].failed == t.users[uid].failed
    && s.users[uid].lockedUntil == t.users[uid].lockedUntil
  }

  lemma AttemptKeepsLock(cfg: Config, s: Accounts, e: Timed, uid: Id)
    requires e.event.Login? && uid in s.users && ValidOverride(s.users[uid].timeoutOverride)
    requires !Fails(s, e, uid) && !Resets(s, e, uid)
    ensures SameLock(s, SignIn(cfg, s, e.at, e.event.attempt), uid)
  {
  }

  /** Any operation that neither evaluates credentials of `uid` nor unlocks it leaves its
      counter and lock alone. */
  lemma OthersKeepLock(cfg: Config, s: Accounts, e: Timed, t: Accounts, uid: Id)
    requires Takes(cfg, s, e, t) && uid in s.users && ValidOverride(s.users[uid].timeoutOverride)
    requires !Fails(s, e, uid) && !Resets(s, e, uid)
    ensures SameLock(s, t, uid)
  {
    if e.event.Login? { AttemptKeepsLock(cfg, s, e, uid); }
  }

  /** After an evaluated failure at operation `i`, the next one up to `j`. */
  lemma {:induction false} NextFailure(cfg: Config, states: seq<Accounts>, events: seq<Timed>, uid: Id,
                                       i: nat, j: nat) returns (m: nat)
    requires Run(cfg, states, events) && i <= j < |events| && uid in states[i].users
    requires Fails(states[j], events[j], uid)
    requires NoReset(cfg, states, events, uid, i, j)
    ensures i <= m <= j && Fails(states[m], events[m], uid) && SameLock(states[i], states[m], uid)
    ensures Failures(cfg, states, events, uid, i, j + 1) == Failures(cfg, states, events, uid, m, j + 1)
    decreases j - i
  {
    if Fails(states[i], events[i], uid) {
      m := i;
    } else {
      ReachableInv(cfg, states, events, i);
      assert UserOk(cfg, states[i], uid);
      OthersKeepLock(cfg, states[i], events[i], states[i + 1], uid);
      m := NextFailure(cfg, states, events, uid, i + 1, j);
    }
  }

  /** The counter as the evaluation at time `at` sees it, an expired lock cleared. */
  function CounterSeen(s: Accounts, uid: Id, at: int): int
    requires uid in s.users
  {
    ClearExpiredLock(s.users[uid], at).failed
  }

  lemma FailureOutcome(cfg: Config, s: Accounts, e: Timed, t: Accounts, uid: Id)
    requires cfg.Valid() && Takes(cfg, s, e, t) && Fails(s, e, uid) && LockOk(cfg, s.users[uid])
    ensures uid in t.users && 0 <= CounterSeen(s, uid, e.at) < cfg.threshold
    ensures t.users[uid].failed == CounterSeen(s, uid, e.at) + 1
    ensures t.users[uid].lockedUntil
         == if CounterSeen(s, uid, e.at) + 1 == cfg.threshold then Some(e.at + cfg.lockLength) else None
  {
  }

  // ----- arithmetic ------------------------------------------------------------------

  /** How many full locks a count of failures has caused. */
  function Locks(count: int, threshold: nat): nat
    requires threshold > 0
  {
    if count < 0 then 0 else Quotient(count, threshold)
  }

  lemma LocksOneMore(x: nat, t: nat)
    requires t > 0
    ensures Locks(x + t, t) == Locks(x, t) + 1
  {
    DivisionLaw(x, t);
    assert x + t == t * (Quotient(x, t) + 1) + Remainder(x, t);
    QuotientUnique(x + t, t, Quotient(x, t) + 1, Remainder(x, t));
  }

  lemma LocksMonotone(x: int, y: int, t: nat)
    requires t > 0 && x <= y
    ensures Locks(x, t) <= Locks(y, t)
  {
    if 0 <= x {
      DivisionLaw(x, t);
      DivisionLaw(y, t);
      var p, q := Quotient(x, t), Quotient(y, t);
      assert t * (q + 1) == t * q + t;
      if q < p { ProductMonotone(t, q + 1, p); }
    }
  }

  /** One more failure in front: either the counter moves on, or it reaches the threshold
      and the next evaluation waits for the lock. */
  lemma OneMoreFailure(length: int, t: nat, n: nat, c: nat, next: nat, gap: int, rest: int)
    requires t > 0 && length >= 0 && n > 0
    requires if c + 1 == t then next == 0 && gap >= length else next == c + 1 && gap >= 0
    requires rest >= length * Locks(n - 1 + next, t)
    ensures gap + rest >= length * Locks(n + c, t)
  {
    if c + 1 == t {
      LocksOneMore(n - 1, t);
      assert n + c == n - 1 + t;
      var q := Locks(n - 1, t);
      assert length * (q + 1) == length * q + length;
    }
  }

  lemma FailureAt(cfg: Config, states: seq<Accounts>, events: seq<Timed>, uid: Id, i: nat)
    requires Run(cfg, states, events) && i < |events| && Fails(states[i], events[i], uid)
    ensures cfg.threshold > 0 && cfg.lockLength >= 0
    ensures Takes(cfg, states[i], events[i], states[i + 1])
    ensures uid in states[i].users && uid in states[i + 1].users && LockOk(cfg, states[i].users[uid])
    ensures 0 <= CounterSeen(states[i], uid, events[i].at) < cfg.threshold
  {
    ReachableInv(cfg, states, events, i);
    assert UserOk(cfg, states[i], uid);
    FailureOutcome(cfg, states[i], events[i], states[i + 1], uid);
  }

  lemma {:induction false} SpanFrom(cfg: Config, states: seq<Accounts>, events: seq<Timed>, uid: Id, i: nat, j: nat)
    requires Run(cfg, states, events) && i <= j < |events|
    requires Fails(states[i], events[i], uid) && Fails(states[j], events[j], uid)
    requires NoReset(cfg, states, events, uid, i, j)
    ensures events[j].at - events[i].at
         >= cfg.lockLength * Locks(Failures(cfg, states, events, uid, i, j + 1) - 1
                                   + CounterSeen(states[i], uid, events[i].at), cfg.threshold)
    decreases j - i
  {
    FailureAt(cfg, states, events, uid, i);
    var c := CounterSeen(states[i], uid, events[i].at);
    if i == j {
      assert Failures(cfg, states, events, uid, j + 1, j + 1) == 0;
      QuotientUnique(c, cfg.threshold, 0, c);
    } else {
      var m := NextFailure(cfg, states, events, uid, i + 1, j);
      SpanFrom(cfg, states, events, uid, m, j);
      NextCounter(cfg, states[i], events[i], states[i + 1], states[m], events[m], uid);
      var n := Failures(cfg, states, events, uid, m, j + 1);
      OneMoreFailure(cfg.lockLength, cfg.threshold, n, c, CounterSeen(states[m], uid, events[m].at),
                     events[m].at - events[i].at, events[j].at - events[m].at);
    }
  }

  /** Between consecutive evaluated failures, `s` to `t` and then at `s'`. */
  lemma NextCounter(cfg: Config, s: Accounts, e: Timed, t: Accounts, s': Accounts, e': Timed, uid: Id)
    requires cfg.Valid() && Takes(cfg, s, e, t) && Fails(s, e, uid) && LockOk(cfg, s.users[uid])
    requires SameLock(t, s', uid) && Fails(s', e', uid) && e.at <= e'.at
    ensures var c, next := CounterSeen(s, uid, e.at), CounterSeen(s', uid, e'.at);
            if c + 1 == cfg.threshold then next == 0 && e'.at - e.at >= cfg.lockLength else next == c + 1
  {
  }

  /** In any stretch of a run without a sign-in or unlock of `uid`, from one evaluated
      failure to a later one, `n` evaluated failures take at least floor((n-1)/T) lock
      lengths, whatever else happens in between. */
  lemma FailureRateIsBounded(cfg: Config, states: seq<Accounts>, events: seq<Timed>, uid: Id, i: nat, j: nat)
    requires Run(cfg, states, events) && i <= j < |events|
    requires Fails(states[i], events[i], uid) && Fails(states[j], events[j], uid)
    requires NoReset(cfg, states, events, uid, i, j)
    ensures events[j].at - events[i].at
         >= cfg.lockLength * Locks(Failures(cfg, states, events, uid, i, j + 1) - 1, cfg.threshold)
  {
    SpanFrom(cfg, states, events, uid, i, j);
    FailureAt(cfg, states, events, uid, i);
    var n, c := Failures(cfg, states, events, uid, i, j + 1), CounterSeen(states[i], uid, events[i].at);
    LocksMonotone(n - 1, n - 1 + c, cfg.threshold);
    ProductMonotone(cfg.lockLength, Locks(n - 1, cfg.threshold), Locks(n - 1 + c, cfg.threshold));
  }
}

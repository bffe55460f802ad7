/** Separation of duties (core/platform/auth/sod.py) over runs of role administration:
    bootstrap, registration, role assignment and role revocation
    (core/platform/auth/service.py). */
module SeparationOfDuties {
  import opened Text
  import opened ScopedAccess
  import opened Directory
  import Accounts
  import opened SessionContext

  datatype Rule = Rule(required: set<string>, message: string)

  /** The default role table and permission catalogue, and the conflict rules. */
  datatype Policy = Policy(table: map<string, set<string>>, catalogue: set<string>, rules: seq<Rule>)

  const VIEWER: string := "viewer"

  /** Role names are not blank, and the administrator role is among them. */
  predicate ValidPolicy(p: Policy) {
    "" !in p.table && ADMIN in p.table
  }

  // ----- find_conflicts --------------------------------------------------------------------

  predicate Violates(rule: Rule, codes: set<string>) {
    rule.required <= NormalizeCodes(codes)
  }

  function Conflicts(rules: seq<Rule>, codes: set<string>): seq<string> {
    if rules == [] then []
    else Conflicts(rules[..|rules| - 1], codes)
         + if Violates(rules[|rules| - 1], codes) then [rules[|rules| - 1].message] else []
  }

  method FindConflicts(rules: seq<Rule>, codes: set<string>) returns (messages: seq<string>)
    ensures messages == Conflicts(rules, codes)
  {
    var normalized := NormalizeCodes(codes);
    messages := [];
    for k := 0 to |rules|
      invariant messages == Conflicts(rules[..k], codes)
    {
      assert rules[..k + 1][..k] == rules[..k];
      if rules[k].required <= normalized {
        messages := messages + [rules[k].message];
      }
    }
    assert rules[..|rules|] == rules;
  }

  ghost predicate ConflictFree(rules: seq<Rule>, codes: set<string>) {
    forall k :: 0 <= k < |rules| ==> !Violates(rules[k], codes)
  }

  /** No message is reported exactly when no rule's permissions are all held. */
  lemma {:induction false} NoConflictsReported(rules: seq<Rule>, codes: set<string>)
    ensures Conflicts(rules, codes) == [] <==> ConflictFree(rules, codes)
  {
    if rules != [] {
      var front := rules[..|rules| - 1];
      NoConflictsReported(front, codes);
      if ConflictFree(front, codes) && !Violates(rules[|rules| - 1], codes) {
        forall k | 0 <= k < |rules| ensures !Violates(rules[k], codes) {
          if k < |front| { assert front[k] == rules[k]; }
        }
      }
      if ConflictFree(rules, codes) {
        forall k | 0 <= k < |front| ensures !Violates(front[k], codes) { assert front[k] == rules[k]; }
      }
    }
  }

  lemma FewerCodesFewerConflicts(rules: seq<Rule>, small: set<string>, large: set<string>)
    requires small <= large && ConflictFree(rules, large)
    ensures ConflictFree(rules, small)
  {
  }

  // ----- the stored state ----------------------------------------------------------------------

  /** Users with their names, and the directory of roles, bindings and permissions. */
  datatype State = State(usernames: map<Id, string>, d: Directory)

  ghost predicate UniqueNames(m: map<Id, string>) {
    forall u, v :: u in m && v in m && m[u] == m[v] ==> u == v
  }

  /** Names and codes are unique and all references resolve, as the tables' unique and
      foreign keys demand; bound role names are normalised, since roles are only ever
      looked up under their normalised name. */
  ghost predicate Stored(s: State) {
    && UniqueNames(s.usernames)
    && UniqueNames(s.d.roleNames)
    && UniqueNames(s.d.permissionCodes)
    && (forall b :: b in s.d.bindings ==>
          b.0 in s.usernames && b.1 in s.d.roleNames && Key(s.d.roleNames[b.1]) == s.d.roleNames[b.1])
    && (forall rp :: rp in s.d.rolePermissions ==> rp.0 in s.d.roleNames && rp.1 in s.d.permissionCodes)
  }

  ghost predicate Named(d: Directory, r: Id, name: string) {
    r in d.roleNames && d.roleNames[r] == name
  }

  /** The role table's codes for a set of role names. */
  function TableCodes(p: Policy, names: set<string>): set<string> {
    set n, c | n in names && n in p.table && c in p.table[n] :: c
  }

  function NormalizedNames(names: seq<string>): set<string> {
    set n | n in names && Strip(n) != "" :: Key(n)
  }

  ghost predicate RoleExists(d: Directory, name: string) {
    exists r :: Named(d, r, name)
  }

  datatype Reply = RoleNotFound | RoleConflict | UserNotFound | UsernameTaken | Accepted

  /** `_enforce_separation_of_duties` */
  ghost function Enforced(p: Policy, d: Directory, names: seq<string>): Reply {
    var ns := NormalizedNames(names);
    if ADMIN in ns then Accepted
    else if exists n :: n in ns && !RoleExists(d, n) then RoleNotFound
    else if !ConflictFree(p.rules, TableCodes(p, ns)) then RoleConflict
    else Accepted
  }

  // ----- events and their effects --------------------------------------------------------------------

  datatype Event =
    | Bootstrap(adminName: string)
    | Register(uid: Id, username: string, roles: seq<string>)
    | AssignRole(uid: Id, role: string)
    | RevokeRole(uid: Id, role: string)

  function RequestedRoles(roles: seq<string>): seq<string> {
    if roles == [] then [VIEWER] else roles
  }

  ghost predicate Binds(d: Directory, u: Id, names: seq<string>, b: (Id, Id)) {
    b.0 == u && exists n :: n in names && Named(d, b.1, Key(n))
  }

  ghost function RegisterReply(p: Policy, s: State, e: Event): Reply
    requires e.Register?
  {
    var names := RequestedRoles(e.roles);
    if e.username in s.usernames.Values then UsernameTaken
    else if Enforced(p, s.d, names) != Accepted then Enforced(p, s.d, names)
    else if exists n :: n in names && !RoleExists(s.d, Key(n)) then RoleNotFound
    else Accepted
  }

  ghost predicate Registered(s: State, e: Event, t: State)
    requires e.Register?
  {
    && t.usernames == s.usernames[e.uid := e.username]
    && t.d == s.d.(bindings := t.d.bindings)
    && forall b :: b in t.d.bindings <==> b in s.d.bindings || Binds(s.d, e.uid, RequestedRoles(e.roles), b)
  }

  ghost function AssignReply(p: Policy, s: State, e: Event, held: seq<string>): Reply
    requires e.AssignRole?
  {
    if e.uid !in s.usernames then UserNotFound
    else if Enforced(p, s.d, held + [e.role]) != Accepted then Enforced(p, s.d, held + [e.role])
    else if !RoleExists(s.d, Key(e.role)) then RoleNotFound
    else Accepted
  }

  /** `held` lists the user's current role names in any order. */
  ghost predicate ListsNames(d: Directory, u: Id, held: seq<string>) {
    forall n :: n in held <==> n in UserRoleNames(d, u)
  }

  ghost predicate Assigned(s: State, e: Event, t: State)
    requires e.AssignRole?
  {
    && t.usernames == s.usernames
    && t.d == s.d.(bindings := t.d.bindings)
    && forall b :: b in t.d.bindings <==> b in s.d.bindings || Binds(s.d, e.uid, [e.role], b)
  }

  ghost predicate Revoked(s: State, e: Event, t: State)
    requires e.RevokeRole?
  {
    && t.usernames == s.usernames
    && t.d == s.d.(bindings := t.d.bindings)
    && forall b :: b in t.d.bindings <==> b in s.d.bindings && !Binds(s.d, e.uid, [e.role], b)
  }

  ghost predicate CatalogueEnsured(p: Policy, d: Directory, d': Directory) {
    && (forall i :: i in d.permissionCodes ==> i in d'.permissionCodes && d'.permissionCodes[i] == d.permissionCodes[i])
    && d'.permissionCodes.Values == d.permissionCodes.Values + p.catalogue
    && (forall r :: r in d.roleNames ==> r in d'.roleNames && d'.roleNames[r] == d.roleNames[r])
    && d'.roleNames.Values == d.roleNames.Values + p.table.Keys
    && (forall rp :: rp in d'.rolePermissions <==> rp in d.rolePermissions || InTable(p, d', rp))
    && d'.grants == d.grants
  }

  /** Bootstrap adds the missing permissions, roles and role permissions of the table, and
      makes the named user an administrator. */
  ghost predicate Bootstrapped(p: Policy, s: State, name: string, t: State) {
    && CatalogueEnsured(p, s.d, t.d)
    && (forall u :: u in s.usernames ==> u in t.usernames && t.usernames[u] == s.usernames[u])
    && name in t.usernames.Values
    && (forall u :: u in t.usernames && t.usernames[u] != name ==> u in s.usernames)
    && (forall b :: b in t.d.bindings <==>
          b in s.d.bindings || (b.0 in t.usernames && t.usernames[b.0] == name && Named(t.d, b.1, ADMIN)))
  }

  predicate Binding(d: Directory, wanted: set<string>, i: Id) {
    i in d.permissionCodes && d.permissionCodes[i] in wanted
  }

  ghost predicate InTable(p: Policy, d: Directory, rp: (Id, Id)) {
    && rp.0 in d.roleNames && d.roleNames[rp.0] in p.table
    && rp.1 in d.permissionCodes && d.permissionCodes[rp.1] in p.table[d.roleNames[rp.0]]
  }

  ghost predicate Takes(p: Policy, s: State, e: Event, t: State) {
    match e
    case Bootstrap(name) => Stored(t) && Bootstrapped(p, s, name, t)
    case Register(uid, _, _) =>
      if RegisterReply(p, s, e) == Accepted then uid !in s.usernames && Registered(s, e, t) else t == s
    case AssignRole(uid, _) =>
      exists held :: ListsNames(s.d, uid, held)
                     && if AssignReply(p, s, e, held) == Accepted then Assigned(s, e, t) else t == s
    case RevokeRole(uid, role) =>
      if uid in s.usernames && RoleExists(s.d, Key(role)) then Revoked(s, e, t) else t == s
  }

  ghost predicate Run(p: Policy, states: seq<State>, events: seq<Event>) {
    && ValidPolicy(p)
    && |states| == |events| + 1
    && states[0] == State(map[], Directory(map[], {}, {}, map[], map[]))
    && (forall k :: 0 <= k < |events| ==> TakesAt(p, states, events, k))
  }

  ghost predicate TakesAt(p: Policy, states: seq<State>, events: seq<Event>, k: nat)
    requires k < |events| < |states|
  {
    Takes(p, states[k], events[k], states[k + 1])
  }

  // ----- what runs keep ---------------------------------------------------------------------------------

  /** Stored role permissions never go beyond the role table. */
  ghost predicate WithinTable(p: Policy, d: Directory) {
    forall rp :: rp in d.rolePermissions ==> InTable(p, d, rp)
  }

  ghost predicate Separated(p: Policy, d: Directory, u: Id) {
    ADMIN in UserRoleNames(d, u) || ConflictFree(p.rules, TableCodes(p, UserRoleNames(d, u)))
  }

  /** What every run keeps, whatever is revoked. */
  ghost predicate Consistent(p: Policy, s: State) {
    Stored(s) && WithinTable(p, s.d) && !RoleExists(s.d, "")
  }

  ghost predicate Inv(p: Policy, s: State) {
    Consistent(p, s) && forall u :: u in s.usernames ==> Separated(p, s.d, u)
  }

  lemma BindingStaysConsistent(p: Policy, s: State, t: State, u: Id, names: seq<string>)
    requires Consistent(p, s) && UniqueNames(t.usernames) && u in t.usernames && s.usernames.Keys <= t.usernames.Keys
    requires t.d == s.d.(bindings := t.d.bindings)
    requires forall b :: b in t.d.bindings <==> b in s.d.bindings || Binds(s.d, u, names, b)
    ensures Consistent(p, t)
  {
    StoredAfterBinding(s, t, u, names);
    SameRolesExist(s.d, t.d);
    WithinTableAfterBinding(p, s.d, t.d);
  }

  lemma UnbindingStaysConsistent(p: Policy, s: State, e: Event, t: State)
    requires Consistent(p, s) && e.RevokeRole? && Revoked(s, e, t)
    ensures Consistent(p, t)
  {
    SameRolesExist(s.d, t.d);
    WithinTableAfterBinding(p, s.d, t.d);
  }

  lemma BootstrapStaysConsistent(p: Policy, s: State, name: string, t: State)
    requires ValidPolicy(p) && Consistent(p, s) && Stored(t) && Bootstrapped(p, s, name, t)
    ensures Consistent(p, t)
  {
    forall r ensures !Named(t.d, r, "") {
      if r in t.d.roleNames && t.d.roleNames[r] == "" {
        assert "" in s.d.roleNames.Values + p.table.Keys;
        var q :| q in s.d.roleNames && s.d.roleNames[q] == "";
        assert Named(s.d, q, "");
      }
    }
    forall rp | rp in t.d.rolePermissions ensures InTable(p, t.d, rp) {
      if rp in s.d.rolePermissions { assert InTable(p, s.d, rp); }
    }
  }

  lemma StepStaysConsistent(p: Policy, s: State, e: Event, t: State)
    requires ValidPolicy(p) && Consistent(p, s) && Takes(p, s, e, t)
    ensures Consistent(p, t)
  {
    if t != s {
      match e
      case Bootstrap(name) => BootstrapStaysConsistent(p, s, name, t);
      case Register(uid, username, roles) =>
        AddedNameIsUnique(s.usernames, uid, username);
        BindingStaysConsistent(p, s, t, uid, RequestedRoles(roles));
      case AssignRole(uid, role) => BindingStaysConsistent(p, s, t, uid, [role]);
      case RevokeRole(_, _) => UnbindingStaysConsistent(p, s, e, t);
    }
  }

  lemma {:induction false} RunsStayConsistent(p: Policy, states: seq<State>, events: seq<Event>, k: nat)
    requires Run(p, states, events) && k <= |events|
    ensures Consistent(p, states[k])
  {
    if k == 0 {
      assert !RoleExists(states[0].d, "");
    } else {
      RunsStayConsistent(p, states, events, k - 1);
      assert TakesAt(p, states, events, k - 1);
      StepStaysConsistent(p, states[k - 1], events[k - 1], states[k]);
    }
  }

  lemma RoleNameOf(d: Directory, u: Id, n: string)
    ensures n in UserRoleNames(d, u) <==> exists b :: b in d.bindings && b.0 == u && Named(d, b.1, n)
  {
  }

  lemma SameBindingsSameNames(d: Directory, d': Directory, u: Id)
    requires forall r :: (u, r) in d.bindings <==> (u, r) in d'.bindings
    requires forall r :: (u, r) in d.bindings && r in d.roleNames ==> r in d'.roleNames && d'.roleNames[r] == d.roleNames[r]
    requires forall r :: (u, r) in d.bindings ==> r in d.roleNames
    ensures UserRoleNames(d', u) == UserRoleNames(d, u)
  {
  }

  /** Binding `names` to `u` on top of what it holds gives exactly those names more. */
  lemma BindingAddsNames(s: State, t: State, u: Id, names: seq<string>)
    requires t.d == s.d.(bindings := t.d.bindings)
    requires forall b :: b in t.d.bindings <==> b in s.d.bindings || Binds(s.d, u, names, b)
    requires forall n :: n in names ==> RoleExists(s.d, Key(n))
    ensures UserRoleNames(t.d, u) == UserRoleNames(s.d, u) + set n | n in names :: Key(n)
    ensures forall v :: v != u ==> UserRoleNames(t.d, v) == UserRoleNames(s.d, v)
  {
    var ks := set n | n in names :: Key(n);
    forall m ensures m in UserRoleNames(t.d, u) <==> m in UserRoleNames(s.d, u) + ks {
      if m in UserRoleNames(t.d, u) && m !in UserRoleNames(s.d, u) {
        var b :| b in t.d.bindings && b.0 == u && b.1 in t.d.roleNames && t.d.roleNames[b.1] == m;
        assert Binds(s.d, u, names, b);
      }
      if m in ks {
        var n :| n in names && Key(n) == m;
        var r :| Named(s.d, r, m);
        assert Binds(s.d, u, names, (u, r));
        assert (u, r) in t.d.bindings;
      }
      if m in UserRoleNames(s.d, u) {
        var b :| b in s.d.bindings && b.0 == u && b.1 in s.d.roleNames && s.d.roleNames[b.1] == m;
        assert b in t.d.bindings;
      }
    }
    forall v | v != u ensures UserRoleNames(t.d, v) == UserRoleNames(s.d, v) {
      forall m ensures m in UserRoleNames(t.d, v) <==> m in UserRoleNames(s.d, v) {
        RoleNameOf(t.d, v, m);
        RoleNameOf(s.d, v, m);
      }
    }
  }

  /** What enforcement was asked covers what the user will then hold. */
  lemma EnforcedIsSeparated(p: Policy, d: Directory, d': Directory, u: Id, names: seq<string>)
    requires Enforced(p, d, names) == Accepted
    requires UserRoleNames(d', u) == NormalizedNames(names)
    ensures Separated(p, d', u)
  {
  }

  lemma SameRolesExist(d: Directory, d': Directory)
    requires d'.roleNames == d.roleNames
    ensures forall name :: RoleExists(d', name) <==> RoleExists(d, name)
  {
    forall name ensures RoleExists(d', name) <==> RoleExists(d, name) {
      assert forall r :: Named(d', r, name) <==> Named(d, r, name);
    }
  }

  /** Binding enforced names keeps the invariant; `asked` is what enforcement was asked. */
  lemma BindKeeps(p: Policy, s: State, t: State, u: Id, names: seq<string>, asked: seq<string>)
    requires Inv(p, s) && UniqueNames(t.usernames) && t.usernames.Keys == s.usernames.Keys + {u}
    requires t.d == s.d.(bindings := t.d.bindings)
    requires forall b :: b in t.d.bindings <==> b in s.d.bindings || Binds(s.d, u, names, b)
    requires forall n :: n in names ==> RoleExists(s.d, Key(n))
    requires Enforced(p, s.d, asked) == Accepted
    requires NormalizedNames(asked) == UserRoleNames(s.d, u) + set n | n in names :: Key(n)
    ensures Inv(p, t)
  {
    BindingAddsNames(s, t, u, names);
    BindingStaysConsistent(p, s, t, u, names);
    EnforcedIsSeparated(p, s.d, t.d, u, asked);
    forall v | v in t.usernames ensures Separated(p, t.d, v) {
      if v != u { assert Separated(p, s.d, v); }
    }
  }

  lemma WithinTableAfterBinding(p: Policy, d: Directory, d': Directory)
    requires WithinTable(p, d) && d' == d.(bindings := d'.bindings)
    ensures WithinTable(p, d')
  {
  }

  lemma RegisterKeeps(p: Policy, s: State, e: Event, t: State)
    requires Inv(p, s) && e.Register? && RegisterReply(p, s, e) == Accepted
    requires e.uid !in s.usernames && Registered(s, e, t)
    ensures Inv(p, t)
  {
    var names := RequestedRoles(e.roles);
    assert UserRoleNames(s.d, e.uid) == {};
    AddedNameIsUnique(s.usernames, e.uid, e.username);
    BoundNamesAreEnforced(s.d, names);
    BindKeeps(p, s, t, e.uid, names, names);
  }

  lemma BoundNamesAreEnforced(d: Directory, names: seq<string>)
    requires !RoleExists(d, "")
    requires forall n :: n in names ==> RoleExists(d, Key(n))
    ensures (set n | n in names :: Key(n)) == NormalizedNames(names)
  {
  }

  lemma StoredAfterBinding(s: State, t: State, u: Id, names: seq<string>)
    requires Stored(s) && UniqueNames(t.usernames) && u in t.usernames && s.usernames.Keys <= t.usernames.Keys
    requires t.d == s.d.(bindings := t.d.bindings)
    requires forall b :: b in t.d.bindings <==> b in s.d.bindings || Binds(s.d, u, names, b)
    ensures Stored(t)
  {
    forall b | b in t.d.bindings
      ensures b.0 in t.usernames && b.1 in t.d.roleNames && Key(t.d.roleNames[b.1]) == t.d.roleNames[b.1]
    {
      if b !in s.d.bindings {
        var n :| n in names && Named(s.d, b.1, Key(n));
        KeyIdempotent(n);
      }
    }
  }

  lemma AssignKeeps(p: Policy, s: State, e: Event, t: State, held: seq<string>)
    requires Inv(p, s) && e.AssignRole? && ListsNames(s.d, e.uid, held)
    requires AssignReply(p, s, e, held) == Accepted && Assigned(s, e, t)
    ensures Inv(p, t)
  {
    HeldNamesAreNormal(s, e.uid, held, e.role);
    assert (set n | n in [e.role] :: Key(n)) == {Key(e.role)} by { assert e.role in [e.role]; }
    BindKeeps(p, s, t, e.uid, [e.role], held + [e.role]);
  }

  lemma HeldNamesAreNormal(s: State, u: Id, held: seq<string>, role: string)
    requires Stored(s) && !RoleExists(s.d, "") && ListsNames(s.d, u, held) && RoleExists(s.d, Key(role))
    ensures NormalizedNames(held + [role]) == UserRoleNames(s.d, u) + {Key(role)}
  {
    assert Strip(role) != "";
    forall n | n in held ensures Key(n) == n && Strip(n) != "" {
      var b :| b in s.d.bindings && b.0 == u && b.1 in s.d.roleNames && s.d.roleNames[b.1] == n;
      assert Named(s.d, b.1, n);
    }
    var ns := held + [role];
    forall m ensures m in NormalizedNames(ns) <==> m in UserRoleNames(s.d, u) + {Key(role)} {
      if m in UserRoleNames(s.d, u) { assert m in held && m in ns; }
      if m == Key(role) { assert role in ns; }
      if m in NormalizedNames(ns) {
        var n :| n in ns && Strip(n) != "" && Key(n) == m;
        assert n in held || n == role;
      }
    }
  }

  lemma RevokeRemovesName(s: State, e: Event, t: State)
    requires Stored(s) && e.RevokeRole? && Revoked(s, e, t)
    ensures UserRoleNames(t.d, e.uid) == UserRoleNames(s.d, e.uid) - {Key(e.role)}
    ensures forall v :: v != e.uid ==> UserRoleNames(t.d, v) == UserRoleNames(s.d, v)
  {
  }

  lemma TableCodesMonotone(p: Policy, small: set<string>, large: set<string>)
    requires small <= large
    ensures TableCodes(p, small) <= TableCodes(p, large)
  {
  }

  /** Revoking any role but the administrator's is safe. */
  lemma RevokeKeeps(p: Policy, s: State, e: Event, t: State)
    requires Inv(p, s) && e.RevokeRole? && Revoked(s, e, t) && Key(e.role) != ADMIN
    ensures Inv(p, t)
  {
    RevokeRemovesName(s, e, t);
    UnbindingStaysConsistent(p, s, e, t);
    forall u | u in t.usernames ensures Separated(p, t.d, u) {
      assert Separated(p, s.d, u);
      assert UserRoleNames(t.d, u) <= UserRoleNames(s.d, u);
      if ADMIN !in UserRoleNames(s.d, u) {
        TableCodesMonotone(p, UserRoleNames(t.d, u), UserRoleNames(s.d, u));
        FewerCodesFewerConflicts(p.rules, TableCodes(p, UserRoleNames(t.d, u)), TableCodes(p, UserRoleNames(s.d, u)));
      }
    }
  }

  lemma BootstrapNames(p: Policy, s: State, name: string, t: State, u: Id)
    requires Stored(s) && Bootstrapped(p, s, name, t) && Stored(t) && ADMIN in p.table && u in t.usernames
    ensures if t.usernames[u] == name then ADMIN in UserRoleNames(t.d, u)
            else u in s.usernames && UserRoleNames(t.d, u) == UserRoleNames(s.d, u)
  {
    if t.usernames[u] == name {
      assert ADMIN in t.d.roleNames.Values;
      var r :| r in t.d.roleNames && t.d.roleNames[r] == ADMIN;
      assert Named(t.d, r, ADMIN);
      assert (u, r) in t.d.bindings;
    } else {
      SameBindingsSameNames(s.d, t.d, u);
    }
  }

  lemma BootstrapKeeps(p: Policy, s: State, name: string, t: State)
    requires ValidPolicy(p) && Inv(p, s) && Stored(t) && Bootstrapped(p, s, name, t)
    ensures Inv(p, t)
  {
    BootstrapStaysConsistent(p, s, name, t);
    forall u | u in t.usernames ensures Separated(p, t.d, u) {
      BootstrapNames(p, s, name, t, u);
      if t.usernames[u] != name { assert Separated(p, s.d, u); }
    }
  }

  lemma StepKeeps(p: Policy, s: State, e: Event, t: State)
    requires ValidPolicy(p) && Inv(p, s) && Takes(p, s, e, t)
    requires e.RevokeRole? ==> Key(e.role) != ADMIN
    ensures Inv(p, t)
  {
    match e
    case Bootstrap(name) => BootstrapKeeps(p, s, name, t);
    case Register(_, _, _) =>
      if RegisterReply(p, s, e) == Accepted { RegisterKeeps(p, s, e, t); }
    case AssignRole(uid, _) =>
      var held :| ListsNames(s.d, uid, held)
                  && if AssignReply(p, s, e, held) == Accepted then Assigned(s, e, t) else t == s;
      if AssignReply(p, s, e, held) == Accepted { AssignKeeps(p, s, e, t, held); }
    case RevokeRole(uid, role) =>
      if uid in s.usernames && RoleExists(s.d, Key(role)) { RevokeKeeps(p, s, e, t); }
  }

  ghost predicate NeverRevokesAdmin(events: seq<Event>, k: nat)
    requires k <= |events|
  {
    forall j :: 0 <= j < k && events[j].RevokeRole? ==> Key(events[j].role) != ADMIN
  }

  lemma {:induction false} ReachableInv(p: Policy, states: seq<State>, events: seq<Event>, k: nat)
    requires Run(p, states, events) && k <= |events| && NeverRevokesAdmin(events, k)
    ensures Inv(p, states[k])
  {
    if k == 0 {
      assert !RoleExists(states[0].d, "");
    } else {
      ReachableInv(p, states, events, k - 1);
      assert TakesAt(p, states, events, k - 1);
      StepKeeps(p, states[k - 1], events[k - 1], states[k]);
    }
  }

  lemma PermissionsWithinTable(p: Policy, d: Directory, u: Id)
    requires WithinTable(p, d)
    ensures UserPermissions(d, u) <= TableCodes(p, UserRoleNames(d, u))
  {
  }

  /** Starting from an empty store, for any role table and rules, in every run that never
      revokes the administrator role: whatever principal is validated for a user who is not
      an administrator, its permissions contain no rule's full conflicting set. */
  lemma DutiesStaySeparated(p: Policy, states: seq<State>, events: seq<Event>, k: nat,
                            w: World, cached: Option<Accounts.Principal>)
    requires Run(p, states, events) && k <= |events| && NeverRevokesAdmin(events, k)
    requires w.directory == states[k].d.(grants := w.directory.grants)
    requires Active(w, true, cached).Some? && cached.value.userId in states[k].usernames
    requires !IsAdmin(w.directory, cached.value.userId)
    ensures forall r :: 0 <= r < |p.rules| ==> !(p.rules[r].required <= Active(w, true, cached).value.permissions)
  {
    var u := cached.value.userId;
    var d := states[k].d;
    ReachableInv(p, states, events, k);
    assert Separated(p, d, u);
    assert UserRoleNames(w.directory, u) == UserRoleNames(d, u);
    assert UserPermissions(w.directory, u) == UserPermissions(d, u);
    PermissionsWithinTable(p, d, u);
    FewerCodesFewerConflicts(p.rules, UserPermissions(d, u), TableCodes(p, UserRoleNames(d, u)));
    CacheCoherence(w, cached);
    forall r | 0 <= r < |p.rules|
      ensures !(p.rules[r].required <= Active(w, true, cached).value.permissions)
    {
      assert !Violates(p.rules[r], UserPermissions(d, u));
    }
  }

  // ----- revoking the administrator role -----------------------------------------------------------------

  /** The user is an administrator or holds no rule's full set of permissions. */
  ghost predicate EffectivelySeparated(p: Policy, d: Directory, u: Id) {
    ADMIN in UserRoleNames(d, u) || ConflictFree(p.rules, UserPermissions(d, u))
  }

  ghost predicate AllSeparated(p: Policy, s: State) {
    forall u :: u in s.usernames ==> EffectivelySeparated(p, s.d, u)
  }

  function EmptyState(): State {
    State(map[], Directory(map[], {}, {}, map[], map[]))
  }

  /** The permissions are the catalogue, the table's roles exist and are bound to all their
      catalogued codes. */
  ghost predicate Booted(p: Policy, d: Directory) {
    && d.permissionCodes.Values == p.catalogue
    && p.table.Keys <= d.roleNames.Values
    && forall rp :: InTable(p, d, rp) ==> rp in d.rolePermissions
  }

  lemma NothingBeforeBootstrap(p: Policy, e: Event, t: State)
    requires Takes(p, EmptyState(), e, t) && !e.Bootstrap?
    ensures t == EmptyState()
  {
    if e.Register? {
      var names := RequestedRoles(e.roles);
      assert names[0] in names && !RoleExists(EmptyState().d, Key(names[0]));
    }
  }

  lemma StaysBooted(p: Policy, s: State, e: Event, t: State)
    requires Takes(p, s, e, t) && Booted(p, s.d)
    ensures Booted(p, t.d)
  {
    if !e.Bootstrap? {
      assert t.d == s.d.(bindings := t.d.bindings);
      forall rp ensures InTable(p, t.d, rp) <==> InTable(p, s.d, rp) {}
    }
  }

  /** In every run the store is empty until the first bootstrap and complete from then on. */
  lemma {:induction false} EmptyOrBooted(p: Policy, states: seq<State>, events: seq<Event>, k: nat)
    requires Run(p, states, events) && k <= |events|
    ensures states[k] == EmptyState() || Booted(p, states[k].d)
  {
    if k > 0 {
      EmptyOrBooted(p, states, events, k - 1);
      var s, e, t := states[k - 1], events[k - 1], states[k];
      assert TakesAt(p, states, events, k - 1);
      if s != EmptyState() {
        StaysBooted(p, s, e, t);
      } else if e.Bootstrap? {
        assert Booted(p, t.d);
      } else {
        NothingBeforeBootstrap(p, e, t);
      }
    }
  }

  /** From the bootstrap on a user's permissions are exactly the catalogued table codes of
      the user's roles. */
  lemma PermissionsAreTableCodes(p: Policy, d: Directory, u: Id)
    requires Booted(p, d) && WithinTable(p, d)
    ensures UserPermissions(d, u) == TableCodes(p, UserRoleNames(d, u)) * p.catalogue
  {
    PermissionsWithinTable(p, d, u);
    forall c | c in TableCodes(p, UserRoleNames(d, u)) * p.catalogue ensures c in UserPermissions(d, u) {
      var n :| n in UserRoleNames(d, u) && n in p.table && c in p.table[n];
      var b :| b in d.bindings && b.0 == u && b.1 in d.roleNames && d.roleNames[b.1] == n;
      var i :| i in d.permissionCodes && d.permissionCodes[i] == c;
      assert InTable(p, d, (b.1, i));
      assert (u, b.1) == b;
    }
  }

  lemma SeparatedEffectively(p: Policy, d: Directory, u: Id)
    requires WithinTable(p, d) && Separated(p, d, u)
    ensures EffectivelySeparated(p, d, u)
  {
    if ADMIN !in UserRoleNames(d, u) {
      PermissionsWithinTable(p, d, u);
      FewerCodesFewerConflicts(p.rules, UserPermissions(d, u), TableCodes(p, UserRoleNames(d, u)));
    }
  }

  /** In every run that has not revoked the administrator role before: revoking it from a user
      leaves the permissions of all users other than administrators free of conflicts exactly
      when the catalogued codes of the user's other roles are, which a caller can look up
      beforehand. */
  lemma AdminRevocationKeepsExactly(p: Policy, states: seq<State>, events: seq<Event>, k: nat)
    requires Run(p, states, events) && k < |events| && NeverRevokesAdmin(events, k)
    requires events[k].RevokeRole? && Key(events[k].role) == ADMIN && events[k].uid in states[k].usernames
    ensures AllSeparated(p, states[k + 1])
       <==> ConflictFree(p.rules, TableCodes(p, UserRoleNames(states[k].d, events[k].uid) - {ADMIN}) * p.catalogue)
  {
    var s, e, t := states[k], events[k], states[k + 1];
    assert TakesAt(p, states, events, k);
    ReachableInv(p, states, events, k);
    EmptyOrBooted(p, states, events, k);
    AdminRoleExists(p, s.d);
    StaysBooted(p, s, e, t);
    RevokeRemovesName(s, e, t);
    WithinTableAfterBinding(p, s.d, t.d);
    PermissionsAreTableCodes(p, t.d, e.uid);
    forall u | u in t.usernames && u != e.uid ensures EffectivelySeparated(p, t.d, u) {
      assert Separated(p, s.d, u);
      SeparatedEffectively(p, t.d, u);
    }
  }

  lemma AdminRoleExists(p: Policy, d: Directory)
    requires ValidPolicy(p) && Booted(p, d)
    ensures RoleExists(d, ADMIN)
  {
    assert ADMIN in d.roleNames.Values;
    var r :| r in d.roleNames && d.roleNames[r] == ADMIN;
    assert Named(d, r, ADMIN);
  }

  // A run in which an administrator is given two conflicting roles and then ceases to be one.

  function ExamplePolicy(): Policy {
    Policy(map[ADMIN := {}, "a" := {"x"}, "b" := {"y"}], {"x", "y"}, [Rule({"x", "y"}, "m")])
  }

  function ExampleState(bindings: set<(Id, Id)>): State {
    State(map["u" := "n"], Directory(map["1" := ADMIN, "2" := "a", "3" := "b"], bindings,
                                     {("2", "5"), ("3", "6")}, map["5" := "x", "6" := "y"], map[]))
  }

  lemma ExampleRoleNames()
    ensures Key(ADMIN) == ADMIN && Key("a") == "a" && Key("b") == "b" && ADMIN != "a" && ADMIN != "b"
  {
    LowerTextIsKey(ADMIN);
    LowerTextIsKey("a");
    LowerTextIsKey("b");
    assert |ADMIN| == 5;
  }

  lemma ExampleNames(d: Directory)
    requires d == ExampleState(d.bindings).d && ADMIN != "a" && ADMIN != "b"
    ensures forall r :: (Named(d, r, ADMIN) <==> r == "1") && (Named(d, r, "a") <==> r == "2") && (Named(d, r, "b") <==> r == "3")
  {
  }

  lemma ExampleStored(t: State)
    requires t == ExampleState({("u", "1")}) && Key(ADMIN) == ADMIN && ADMIN != "a" && ADMIN != "b"
    ensures Stored(t)
  {
    assert forall b :: b in t.d.bindings ==> b == ("u", "1");
  }

  lemma ExampleBootstrapped(p: Policy, t: State)
    requires t == ExampleState({("u", "1")}) && CatalogueEnsured(p, EmptyState().d, t.d)
    requires forall r :: Named(t.d, r, ADMIN) <==> r == "1"
    ensures Bootstrapped(p, EmptyState(), "n", t)
  {
    assert "u" in t.usernames && t.usernames["u"] == "n";
    forall b ensures b in t.d.bindings <==> b.0 in t.usernames && t.usernames[b.0] == "n" && Named(t.d, b.1, ADMIN) {}
  }

  lemma ExampleBootstrap(p: Policy, e: Event, t: State)
    requires p == ExamplePolicy() && e == Bootstrap("n") && t == ExampleState({("u", "1")})
    ensures Takes(p, EmptyState(), e, t)
  {
    ExampleRoleNames();
    ExampleNames(t.d);
    ExampleCatalogue(p, t.d);
    ExampleStored(t);
    ExampleBootstrapped(p, t);
  }

  lemma ExampleCatalogue(p: Policy, d: Directory)
    requires p == ExamplePolicy() && d == ExampleState({("u", "1")}).d && ADMIN != "a" && ADMIN != "b"
    ensures CatalogueEnsured(p, EmptyState().d, d)
  {
    assert d.permissionCodes["5"] == "x" && d.permissionCodes["6"] == "y";
    assert d.roleNames["1"] == ADMIN && d.roleNames["2"] == "a" && d.roleNames["3"] == "b";
    forall rp ensures rp in d.rolePermissions <==> InTable(p, d, rp) {}
  }

  /** An administrator is given a role without any check. */
  lemma AdminTakesRole(p: Policy, s: State, e: Event, t: State, held: seq<string>, r: Id)
    requires e.AssignRole? && e.uid in s.usernames && ListsNames(s.d, e.uid, held) && ADMIN in held && Key(ADMIN) == ADMIN
    requires forall q :: Named(s.d, q, Key(e.role)) <==> q == r
    requires t == s.(d := s.d.(bindings := s.d.bindings + {(e.uid, r)}))
    ensures Takes(p, s, e, t)
  {
    assert Named(s.d, r, Key(e.role));
    assert ADMIN in held + [e.role] && Strip(ADMIN) != "" by { assert Key(ADMIN) != ""; }
    forall b ensures b in t.d.bindings <==> b in s.d.bindings || Binds(s.d, e.uid, [e.role], b) {
      BindsOneMore(s.d, e.uid, [], e.role, b);
      assert [] + [e.role] == [e.role];
    }
    assert AssignReply(p, s, e, held) == Accepted;
  }

  lemma RoleIsRevoked(p: Policy, s: State, e: Event, t: State, r: Id)
    requires e.RevokeRole? && e.uid in s.usernames
    requires forall q :: Named(s.d, q, Key(e.role)) <==> q == r
    requires t == s.(d := s.d.(bindings := s.d.bindings - {(e.uid, r)}))
    ensures Takes(p, s, e, t)
  {
    assert Named(s.d, r, Key(e.role));
    forall b ensures b in t.d.bindings <==> b in s.d.bindings && !Binds(s.d, e.uid, [e.role], b) {
      BindsOneMore(s.d, e.uid, [], e.role, b);
      assert [] + [e.role] == [e.role];
    }
  }

  lemma ExampleHolds(d: Directory, r: Id, n: string)
    requires d == ExampleState(d.bindings).d && ("u", r) in d.bindings && Named(d, r, n)
    ensures n in UserRoleNames(d, "u")
  {
    assert ("u", r).1 in d.roleNames;
  }

  lemma ExampleRoles(d: Directory, held: seq<string>)
    requires ADMIN != "a" && ADMIN != "b"
    requires || (d == ExampleState({("u", "1")}).d && held == [ADMIN])
             || (d == ExampleState({("u", "1"), ("u", "2")}).d && held == [ADMIN, "a"])
    ensures ListsNames(d, "u", held)
  {
    ExampleHolds(d, "1", ADMIN);
    if ("u", "2") in d.bindings { ExampleHolds(d, "2", "a"); }
  }

  lemma ExampleExposed(p: Policy, d: Directory)
    requires p == ExamplePolicy() && d == ExampleState({("u", "2"), ("u", "3")}).d && ADMIN != "a" && ADMIN != "b"
    ensures !IsAdmin(d, "u") && p.rules[0].required <= UserPermissions(d, "u")
  {
    assert ("2", "5") in d.rolePermissions && ("u", ("2", "5").0) in d.bindings && d.permissionCodes[("2", "5").1] == "x";
    assert ("3", "6") in d.rolePermissions && ("u", ("3", "6").0) in d.bindings && d.permissionCodes[("3", "6").1] == "y";
  }

  /** A run goes on with any step that can be taken from its last state. */
  lemma RunGrows(p: Policy, states: seq<State>, events: seq<Event>, k: nat)
    requires k < |events| < |states| && Run(p, states[..k + 1], events[..k])
    requires TakesAt(p, states, events, k)
    ensures Run(p, states[..k + 2], events[..k + 1])
  {
    var ss, es := states[..k + 2], events[..k + 1];
    forall j: nat | j < |es| ensures TakesAt(p, ss, es, j) {
      if j < k { assert TakesAt(p, states[..k + 1], events[..k], j); }
    }
  }

  lemma RunStarts(p: Policy, states: seq<State>, events: seq<Event>, e: Event, t: State)
    requires ValidPolicy(p) && 0 < |events| < |states| && states[0] == EmptyState() && events[0] == e && states[1] == t
    requires Takes(p, EmptyState(), e, t)
    ensures Run(p, states[..2], events[..1])
  {
    assert Run(p, states[..1], events[..0]);
    RunGrows(p, states, events, 0);
  }

  lemma ExampleFirstRole(p: Policy, states: seq<State>, events: seq<Event>)
    requires |events| == 4 && |states| == 5 && Run(p, states[..2], events[..1])
    requires states[1] == ExampleState({("u", "1")}) && states[2] == ExampleState({("u", "1"), ("u", "2")})
    requires events[1] == AssignRole("u", "a")
    ensures Run(p, states[..3], events[..2])
  {
    ExampleRoleNames();
    ExampleNames(states[1].d);
    ExampleRoles(states[1].d, [ADMIN]);
    AdminTakesRole(p, states[1], events[1], states[2], [ADMIN], "2");
    RunGrows(p, states, events, 1);
  }

  lemma ExampleSecondRole(p: Policy, states: seq<State>, events: seq<Event>)
    requires |events| == 4 && |states| == 5 && Run(p, states[..3], events[..2])
    requires states[2] == ExampleState({("u", "1"), ("u", "2")}) && states[3] == ExampleState({("u", "1"), ("u", "2"), ("u", "3")})
    requires events[2] == AssignRole("u", "b")
    ensures Run(p, states[..4], events[..3])
  {
    ExampleRoleNames();
    ExampleNames(states[2].d);
    ExampleRoles(states[2].d, [ADMIN, "a"]);
    AdminTakesRole(p, states[2], events[2], states[3], [ADMIN, "a"], "3");
    RunGrows(p, states, events, 2);
  }

  lemma ExampleRevocation(p: Policy, states: seq<State>, events: seq<Event>)
    requires |events| == 4 && |states| == 5 && Run(p, states[..4], events[..3])
    requires states[3] == ExampleState({("u", "1"), ("u", "2"), ("u", "3")}) && states[4] == ExampleState({("u", "2"), ("u", "3")})
    requires events[3] == RevokeRole("u", ADMIN)
    ensures Run(p, states[..5], events[..4])
  {
    ExampleRoleNames();
    ExampleNames(states[3].d);
    assert states[4].d.bindings == states[3].d.bindings - {("u", "1")};
    RoleIsRevoked(p, states[3], events[3], states[4], "1");
    RunGrows(p, states, events, 3);
  }

  lemma ExamplePolicyIsValid(p: Policy)
    requires p == ExamplePolicy()
    ensures ValidPolicy(p)
  {
    assert |ADMIN| == 5;
  }

  lemma ExampleRun(p: Policy, states: seq<State>, events: seq<Event>)
    requires p == ExamplePolicy() && |states| == 5 && |events| == 4 && states[0] == EmptyState()
    requires states[1] == ExampleState({("u", "1")}) && states[2] == ExampleState({("u", "1"), ("u", "2")})
    requires states[3] == ExampleState({("u", "1"), ("u", "2"), ("u", "3")}) && states[4] == ExampleState({("u", "2"), ("u", "3")})
    requires events[0] == Bootstrap("n") && events[1] == AssignRole("u", "a")
    requires events[2] == AssignRole("u", "b") && events[3] == RevokeRole("u", ADMIN)
    ensures Run(p, states, events)
  {
    ExamplePolicyIsValid(p);
    ExampleBootstrap(p, events[0], states[1]);
    RunStarts(p, states, events, events[0], states[1]);
    ExampleFirstRole(p, states, events);
    ExampleSecondRole(p, states, events);
    ExampleRevocation(p, states, events);
    assert states[..5] == states && events[..4] == events;
  }

  /** A run from the empty store in which every assignment is checked, and at whose end, the
      administrator role revoked, a user who is no administrator holds all permissions of a
      rule. */
  lemma AdminRevocationCanExpose() returns (p: Policy, states: seq<State>, events: seq<Event>)
    ensures Run(p, states, events) && |events| == 4 && |states| == 5
    ensures events == [Bootstrap("n"), AssignRole("u", "a"), AssignRole("u", "b"), RevokeRole("u", ADMIN)]
    ensures "u" in states[4].usernames && !IsAdmin(states[4].d, "u")
    ensures |p.rules| == 1 && p.rules[0].required <= UserPermissions(states[4].d, "u")
  {
    p := ExamplePolicy();
    events := [Bootstrap("n"), AssignRole("u", "a"), AssignRole("u", "b"), RevokeRole("u", ADMIN)];
    states := [EmptyState(), ExampleState({("u", "1")}), ExampleState({("u", "1"), ("u", "2")}),
               ExampleState({("u", "1"), ("u", "2"), ("u", "3")}), ExampleState({("u", "2"), ("u", "3")})];
    ExampleRun(p, states, events);
    ExampleRoleNames();
    ExampleExposed(p, states[4].d);
  }

  // ----- what is accepted ------------------------------------------------------------------------------------

  /** The directory with the roles of the given names bound to the user. */
  function Gaining(d: Directory, u: Id, names: set<string>): Directory {
    d.(bindings := d.bindings + set r | r in d.roleNames && d.roleNames[r] in names :: (u, r))
  }

  /** All permissions that the rule names are among these, blanks around them aside. */
  ghost predicate HeldInFull(rule: Rule, permissions: set<string>) {
    forall c :: c in rule.required ==> c != "" && exists q :: q in permissions && Strip(q) == c
  }

  /** In this directory the user is an administrator or holds no rule's permissions in full. */
  ghost predicate Harmless(p: Policy, d: Directory, u: Id) {
    || (exists b :: b in d.bindings && b.0 == u && Named(d, b.1, "admin"))
    || forall k :: 0 <= k < |p.rules| ==> !HeldInFull(p.rules[k], UserPermissions(d, u))
  }

  /** Every code in the role table is in the catalogue. */
  ghost predicate TableIsCatalogued(p: Policy) {
    forall n :: n in p.table ==> p.table[n] <= p.catalogue
  }

  lemma ViolatedWhenHeldInFull(rule: Rule, codes: set<string>)
    ensures Violates(rule, codes) <==> HeldInFull(rule, codes)
  {
    if HeldInFull(rule, codes) {
      forall c | c in rule.required ensures c in NormalizeCodes(codes) {
        var q :| q in codes && Strip(q) == c;
      }
    }
  }

  /** The check on role names is the check on the permissions that they bring. */
  lemma HarmlessByNames(p: Policy, s: State, d: Directory, u: Id)
    requires Consistent(p, s) && Booted(p, s.d) && TableIsCatalogued(p) && d == s.d.(bindings := d.bindings)
    ensures Harmless(p, d, u)
       <==> ADMIN in UserRoleNames(d, u) || ConflictFree(p.rules, TableCodes(p, UserRoleNames(d, u)))
  {
    RoleNameOf(d, u, ADMIN);
    WithinTableAfterBinding(p, s.d, d);
    assert Booted(p, d) by {
      forall rp ensures InTable(p, d, rp) <==> InTable(p, s.d, rp) {}
    }
    PermissionsAreTableCodes(p, d, u);
    assert TableCodes(p, UserRoleNames(d, u)) * p.catalogue == TableCodes(p, UserRoleNames(d, u));
    forall k | 0 <= k < |p.rules| ensures Violates(p.rules[k], UserPermissions(d, u)) <==> HeldInFull(p.rules[k], UserPermissions(d, u)) {
      ViolatedWhenHeldInFull(p.rules[k], UserPermissions(d, u));
    }
  }

  lemma GainingBinds(d: Directory, u: Id, names: seq<string>)
    ensures var g := Gaining(d, u, set n | n in names :: Key(n));
            forall b :: b in g.bindings <==> b in d.bindings || Binds(d, u, names, b)
  {
  }

  lemma StoredName(d: Directory, name: string)
    ensures RoleExists(d, name) <==> name in d.roleNames.Values
  {
    if name in d.roleNames.Values {
      var r :| r in d.roleNames && d.roleNames[r] == name;
      assert Named(d, r, name);
    }
  }

  /** Names that are all stored pass enforcement exactly when they are harmless. */
  lemma EnforcedStoredNames(p: Policy, s: State, names: seq<string>, d: Directory, u: Id)
    requires Consistent(p, s) && Booted(p, s.d) && TableIsCatalogued(p) && d == s.d.(bindings := d.bindings)
    requires UserRoleNames(d, u) == NormalizedNames(names)
    ensures Enforced(p, s.d, names) == Accepted <==> Harmless(p, d, u)
  {
    HarmlessByNames(p, s, d, u);
    forall n | n in UserRoleNames(d, u) ensures RoleExists(s.d, n) {
      RoleNameOf(d, u, n);
      StoredName(s.d, n);
    }
  }

  lemma AssignmentAccepted(p: Policy, s: State, e: Event, held: seq<string>)
    requires Consistent(p, s) && Booted(p, s.d) && TableIsCatalogued(p) && e.AssignRole? && ListsNames(s.d, e.uid, held)
    ensures AssignReply(p, s, e, held) == Accepted
       <==> e.uid in s.usernames && Key(e.role) in s.d.roleNames.Values && Harmless(p, Gaining(s.d, e.uid, {Key(e.role)}), e.uid)
    ensures Key(e.role) in s.d.roleNames.Values
        ==> UserRoleNames(Gaining(s.d, e.uid, {Key(e.role)}), e.uid) == UserRoleNames(s.d, e.uid) + {Key(e.role)}
  {
    StoredName(s.d, Key(e.role));
    if RoleExists(s.d, Key(e.role)) {
      var d := Gaining(s.d, e.uid, {Key(e.role)});
      KeysOfOne(e.role);
      GainingBinds(s.d, e.uid, [e.role]);
      BindingAddsNames(s, s.(d := d), e.uid, [e.role]);
      HeldNamesAreNormal(s, e.uid, held, e.role);
      EnforcedStoredNames(p, s, held + [e.role], d, e.uid);
    }
  }

  lemma KeysOfOne(name: string)
    ensures (set n | n in [name] :: Key(n)) == {Key(name)}
  {
    assert name in [name];
  }

  /** In every run, from the first bootstrap on: an assignment adds exactly that role if the
      user and the role exist and the user, holding it too, would be an administrator or hold
      no rule's permissions in full; any other assignment changes nothing. */
  lemma AssignmentsAreJudged(p: Policy, states: seq<State>, events: seq<Event>, k: nat)
    requires Run(p, states, events) && TableIsCatalogued(p)
    requires k < |events| && events[k].AssignRole? && states[k] != EmptyState()
    ensures var s, t, u, role := states[k], states[k + 1], events[k].uid, Key(events[k].role);
            var d := Gaining(s.d, u, {role});
            if u in s.usernames && role in s.d.roleNames.Values && Harmless(p, d, u)
            then t == s.(d := d) && UserRoleNames(t.d, u) == UserRoleNames(s.d, u) + {role}
            else t == s
    ensures forall held :: ListsNames(states[k].d, events[k].uid, held) ==>
              (AssignReply(p, states[k], events[k], held) == Accepted
               <==> && events[k].uid in states[k].usernames && Key(events[k].role) in states[k].d.roleNames.Values
                    && Harmless(p, Gaining(states[k].d, events[k].uid, {Key(events[k].role)}), events[k].uid))
  {
    var s, e, t := states[k], events[k], states[k + 1];
    RunsStayConsistent(p, states, events, k);
    EmptyOrBooted(p, states, events, k);
    assert TakesAt(p, states, events, k);
    var d := Gaining(s.d, e.uid, {Key(e.role)});
    forall held | ListsNames(s.d, e.uid, held)
      ensures AssignReply(p, s, e, held) == Accepted
         <==> e.uid in s.usernames && Key(e.role) in s.d.roleNames.Values && Harmless(p, d, e.uid)
      ensures Key(e.role) in s.d.roleNames.Values ==> UserRoleNames(d, e.uid) == UserRoleNames(s.d, e.uid) + {Key(e.role)}
    {
      AssignmentAccepted(p, s, e, held);
    }
    var held :| ListsNames(s.d, e.uid, held)
                && if AssignReply(p, s, e, held) == Accepted then Assigned(s, e, t) else t == s;
    if AssignReply(p, s, e, held) == Accepted {
      KeysOfOne(e.role);
      GainingBinds(s.d, e.uid, [e.role]);
      assert t.d.bindings == d.bindings;
    }
  }

  /** In every run a revocation takes exactly that role from the user if both exist, whatever
      the role; otherwise nothing changes. */
  lemma RevocationsAreJudged(p: Policy, states: seq<State>, events: seq<Event>, k: nat)
    requires Run(p, states, events) && k < |events| && events[k].RevokeRole?
    ensures var s, t, u, role := states[k], states[k + 1], events[k].uid, Key(events[k].role);
            if u in s.usernames && role in s.d.roleNames.Values
            then && t.usernames == s.usernames && t.d == s.d.(bindings := t.d.bindings)
                 && UserRoleNames(t.d, u) == UserRoleNames(s.d, u) - {role}
                 && forall v :: v != u ==> UserRoleNames(t.d, v) == UserRoleNames(s.d, v)
            else t == s
  {
    assert TakesAt(p, states, events, k);
    RunsStayConsistent(p, states, events, k);
    StoredName(states[k].d, Key(events[k].role));
    if events[k].uid in states[k].usernames && RoleExists(states[k].d, Key(events[k].role)) {
      RevokeRemovesName(states[k], events[k], states[k + 1]);
    }
  }

  /** The keys of the requested roles; of "viewer" when none are requested. */
  function RoleKeys(roles: seq<string>): set<string> {
    if roles == [] then {"viewer"} else set n | n in roles :: Key(n)
  }

  lemma RoleKeysAreRequested(roles: seq<string>)
    ensures RoleKeys(roles) == set n | n in RequestedRoles(roles) :: Key(n)
  {
    LowerTextIsKey(VIEWER);
    KeysOfOne(VIEWER);
  }

  lemma RegistrationAccepted(p: Policy, s: State, e: Event)
    requires Consistent(p, s) && Booted(p, s.d) && TableIsCatalogued(p) && e.Register? && e.uid !in s.usernames
    ensures var d := Gaining(s.d, e.uid, RoleKeys(e.roles));
            && (RegisterReply(p, s, e) == Accepted
                <==> e.username !in s.usernames.Values && RoleKeys(e.roles) <= s.d.roleNames.Values && Harmless(p, d, e.uid))
            && (RoleKeys(e.roles) <= s.d.roleNames.Values ==> UserRoleNames(d, e.uid) == RoleKeys(e.roles))
  {
    var names, d := RequestedRoles(e.roles), Gaining(s.d, e.uid, RoleKeys(e.roles));
    RoleKeysAreRequested(e.roles);
    forall n ensures RoleExists(s.d, n) <==> n in s.d.roleNames.Values { StoredName(s.d, n); }
    if RoleKeys(e.roles) <= s.d.roleNames.Values {
      forall n | n in names ensures RoleExists(s.d, Key(n)) { assert Key(n) in RoleKeys(e.roles); }
      GainingBinds(s.d, e.uid, names);
      BindingAddsNames(s, s.(d := d), e.uid, names);
      assert UserRoleNames(s.d, e.uid) == {};
      BoundNamesAreEnforced(s.d, names);
      EnforcedStoredNames(p, s, names, d, e.uid);
    } else {
      var m :| m in RoleKeys(e.roles) && m !in s.d.roleNames.Values;
      var n :| n in names && Key(n) == m;
      assert !RoleExists(s.d, Key(n));
    }
  }

  /** In every run, from the first bootstrap on: a registration stores the user with exactly
      the requested roles, or just as a viewer when none are requested, if the name is free,
      the roles exist and they are harmless together; any other registration changes nothing. */
  lemma RegistrationsAreJudged(p: Policy, states: seq<State>, events: seq<Event>, k: nat)
    requires Run(p, states, events) && TableIsCatalogued(p)
    requires k < |events| && events[k].Register? && events[k].uid !in states[k].usernames && states[k] != EmptyState()
    ensures var s, t, u, name, roles := states[k], states[k + 1], events[k].uid, events[k].username, RoleKeys(events[k].roles);
            var d := Gaining(s.d, u, roles);
            if name !in s.usernames.Values && roles <= s.d.roleNames.Values && Harmless(p, d, u)
            then t == State(s.usernames[u := name], d) && UserRoleNames(t.d, u) == roles
            else t == s
  {
    var s, e, t := states[k], events[k], states[k + 1];
    RunsStayConsistent(p, states, events, k);
    EmptyOrBooted(p, states, events, k);
    assert TakesAt(p, states, events, k);
    RegistrationAccepted(p, s, e);
    if RegisterReply(p, s, e) == Accepted {
      RoleKeysAreRequested(e.roles);
      GainingBinds(s.d, e.uid, RequestedRoles(e.roles));
      assert t.d.bindings == Gaining(s.d, e.uid, RoleKeys(e.roles)).bindings;
    }
  }

  // ----- the operations in their own form --------------------------------------------------------------------

  /** A new identifier: longer than every identifier in use. */
  method GenerateId(used: set<Id>) returns (id: Id)
    ensures id !in used
  {
    var rest := used;
    id := "x";
    while rest != {}
      invariant rest <= used
      invariant forall u :: u in used && u !in rest ==> |u| < |id|
      decreases rest
    {
      var u :| u in rest;
      while |id| <= |u|
        invariant forall v :: v in used && v !in rest ==> |v| < |id|
      {
        id := id + "x";
      }
      rest := rest - {u};
    }
  }

  class RoleAdministration {
    const policy: Policy
    var usernames: map<Id, string>
    var d: Directory

    ghost function Now(): State
      reads this
    {
      State(usernames, d)
    }

    constructor (policy: Policy)
      ensures this.policy == policy && Now() == State(map[], Directory(map[], {}, {}, map[], map[])) && Stored(Now())
    {
      this.policy := policy;
      usernames := map[];
      d := Directory(map[], {}, {}, map[], map[]);
    }

    /** `get_by_name` */
    method FindRole(name: string) returns (found: Option<Id>)
      ensures found.Some? ==> Named(d, found.value, name)
      ensures found.None? ==> !RoleExists(d, name)
    {
      var ids := d.roleNames.Keys;
      while ids != {}
        invariant ids <= d.roleNames.Keys
        invariant forall r :: r in d.roleNames && r !in ids ==> d.roleNames[r] != name
        decreases ids
      {
        var r :| r in ids;
        if d.roleNames[r] == name {
          return Some(r);
        }
        ids := ids - {r};
      }
      return None;
    }

    /** `_enforce_separation_of_duties` */
    method EnforceSeparationOfDuties(names: seq<string>) returns (reply: Reply)
      ensures reply == Enforced(policy, d, names)
    {
      var ns := NormalizedNames(names);
      if ADMIN in ns {
        return Accepted;
      }
      var codes: set<string> := {};
      var todo := ns;
      while todo != {}
        invariant todo <= ns
        invariant forall n :: n in ns && n !in todo ==> RoleExists(d, n)
        invariant codes == TableCodes(policy, ns - todo)
        decreases todo
      {
        var n :| n in todo;
        var role := FindRole(n);
        if role.None? {
          return RoleNotFound;
        }
        assert RoleExists(d, n);
        ghost var before := ns - todo;
        codes := codes + if n in policy.table then policy.table[n] else {};
        todo := todo - {n};
        assert ns - todo == before + {n};
        assert codes == TableCodes(policy, before + {n});
      }
      assert ns - todo == ns;
      NoConflictsReported(policy.rules, codes);
      var conflicts := FindConflicts(policy.rules, codes);
      return if conflicts == [] then Accepted else RoleConflict;
    }

    /** `_assign_roles_for_user`: on success every name is bound; otherwise the caller
        rolls the bindings back. */
    method BindRoles(u: Id, names: seq<string>) returns (ok: bool, bindings: set<(Id, Id)>)
      requires Stored(Now())
      ensures ok <==> forall n :: n in names ==> RoleExists(d, Key(n))
      ensures ok ==> forall b :: b in bindings <==> b in d.bindings || Binds(d, u, names, b)
    {
      bindings := d.bindings;
      for k := 0 to |names|
        invariant forall n :: n in names[..k] ==> RoleExists(d, Key(n))
        invariant forall b :: b in bindings <==> b in d.bindings || Binds(d, u, names[..k], b)
      {
        var role := FindRole(Key(names[k]));
        if role.None? {
          return false, bindings;
        }
        assert RoleExists(d, Key(names[k]));
        ghost var before := bindings;
        bindings := bindings + {(u, role.value)};
        assert names[..k + 1] == names[..k] + [names[k]];
        forall b ensures b in bindings <==> b in d.bindings || Binds(d, u, names[..k + 1], b) {
          BindsOneMore(d, u, names[..k], names[k], b);
          if b.0 == u && Named(d, b.1, Key(names[k])) { assert b.1 == role.value; }
        }
      }
      assert names[..|names|] == names;
      return true, bindings;
    }

    method RegisterUser(uid: Id, username: string, roles: seq<string>) returns (reply: Reply)
      requires Stored(Now()) && uid !in usernames
      modifies this
      ensures reply == RegisterReply(policy, old(Now()), Register(uid, username, roles))
      ensures Takes(policy, old(Now()), Register(uid, username, roles), Now()) && Stored(Now())
    {
      if username in usernames.Values {
        return UsernameTaken;
      }
      var names := if roles == [] then [VIEWER] else roles;
      reply := EnforceSeparationOfDuties(names);
      if reply != Accepted {
        return;
      }
      var ok, bindings := BindRoles(uid, names);
      if !ok {
        return RoleNotFound;
      }
      ghost var before := Now();
      AddedNameIsUnique(usernames, uid, username);
      usernames := usernames[uid := username];
      d := d.(bindings := bindings);
      StoredAfterBinding(before, Now(), uid, names);
    }

    method AssignUserRole(uid: Id, role: string, held: seq<string>) returns (reply: Reply)
      requires Stored(Now()) && ListsNames(d, uid, held)
      modifies this`d
      ensures reply == AssignReply(policy, old(Now()), AssignRole(uid, role), held)
      ensures Takes(policy, old(Now()), AssignRole(uid, role), Now()) && Stored(Now())
    {
      if uid !in usernames {
        return UserNotFound;
      }
      reply := EnforceSeparationOfDuties(held + [role]);
      if reply != Accepted {
        return;
      }
      var ok, bindings := BindRoles(uid, [role]);
      assert role in [role];
      if !ok {
        return RoleNotFound;
      }
      ghost var before := Now();
      d := d.(bindings := bindings);
      StoredAfterBinding(before, Now(), uid, [role]);
    }

    method RevokeUserRole(uid: Id, role: string) returns (reply: Reply)
      requires Stored(Now())
      modifies this`d
      ensures Takes(policy, old(Now()), RevokeRole(uid, role), Now()) && Stored(Now())
      ensures reply == if uid !in old(usernames) then UserNotFound
                       else if !RoleExists(old(d), Key(role)) then RoleNotFound else Accepted
    {
      if uid !in usernames {
        return UserNotFound;
      }
      var found := FindRole(Key(role));
      if found.None? {
        return RoleNotFound;
      }
      assert RoleExists(d, Key(role));
      ghost var before := Now();
      d := d.(bindings := d.bindings - {(uid, found.value)});
      forall b ensures b in d.bindings <==> b in before.d.bindings && !Binds(before.d, uid, [role], b) {
        BindsOneMore(before.d, uid, [], role, b);
        assert [] + [role] == [role];
        if b.0 == uid && Named(before.d, b.1, Key(role)) { assert b.1 == found.value; }
      }
      return Accepted;
    }

    /** `_ensure_default_permissions` */
    method EnsureDefaultPermissions()
      requires Stored(Now())
      modifies this`d
      ensures Stored(Now()) && d == old(d).(permissionCodes := d.permissionCodes)
      ensures forall i :: i in old(d).permissionCodes ==> i in d.permissionCodes && d.permissionCodes[i] == old(d).permissionCodes[i]
      ensures d.permissionCodes.Values == old(d).permissionCodes.Values + policy.catalogue
    {
      var todo := policy.catalogue;
      while todo != {}
        invariant todo <= policy.catalogue
        invariant Stored(Now()) && d == old(d).(permissionCodes := d.permissionCodes)
        invariant forall i :: i in old(d).permissionCodes ==> i in d.permissionCodes && d.permissionCodes[i] == old(d).permissionCodes[i]
        invariant d.permissionCodes.Values == old(d).permissionCodes.Values + (policy.catalogue - todo)
        decreases todo
      {
        var code :| code in todo;
        if code !in d.permissionCodes.Values {
          var id := GenerateId(d.permissionCodes.Keys);
          AddedValue(d.permissionCodes, id, code);
          AddedNameIsUnique(d.permissionCodes, id, code);
          d := d.(permissionCodes := d.permissionCodes[id := code]);
        }
        todo := todo - {code};
      }
    }

    /** `_ensure_default_roles` */
    method EnsureDefaultRoles()
      requires Stored(Now())
      modifies this`d
      ensures Stored(Now()) && d == old(d).(roleNames := d.roleNames)
      ensures forall r :: r in old(d).roleNames ==> r in d.roleNames && d.roleNames[r] == old(d).roleNames[r]
      ensures d.roleNames.Values == old(d).roleNames.Values + policy.table.Keys
    {
      var todo := policy.table.Keys;
      while todo != {}
        invariant todo <= policy.table.Keys
        invariant Stored(Now()) && d == old(d).(roleNames := d.roleNames)
        invariant forall r :: r in old(d).roleNames ==> r in d.roleNames && d.roleNames[r] == old(d).roleNames[r]
        invariant d.roleNames.Values == old(d).roleNames.Values + (policy.table.Keys - todo)
        decreases todo
      {
        var name :| name in todo;
        if name !in d.roleNames.Values {
          var id := GenerateId(d.roleNames.Keys);
          AddedValue(d.roleNames, id, name);
          AddedNameIsUnique(d.roleNames, id, name);
          d := d.(roleNames := d.roleNames[id := name]);
        }
        todo := todo - {name};
      }
    }

    /** Inner loop of `_ensure_role_permissions`: bind every catalogued code to the role. */
    method EnsureCodesOfRole(r: Id, wanted: set<string>)
      modifies this`d
      ensures d == old(d).(rolePermissions := d.rolePermissions)
      ensures forall rp :: rp in d.rolePermissions
                      <==> rp in old(d).rolePermissions || (rp.0 == r && Binding(old(d), wanted, rp.1))
    {
      var todo := d.permissionCodes.Keys;
      while todo != {}
        invariant todo <= d.permissionCodes.Keys
        invariant d == old(d).(rolePermissions := d.rolePermissions)
        invariant forall rp :: rp in d.rolePermissions
                          <==> rp in old(d).rolePermissions || (rp.0 == r && rp.1 !in todo && Binding(old(d), wanted, rp.1))
        decreases todo
      {
        var i :| i in todo;
        if d.permissionCodes[i] in wanted && (r, i) !in d.rolePermissions {
          d := d.(rolePermissions := d.rolePermissions + {(r, i)});
        }
        todo := todo - {i};
      }
    }

    /** `_ensure_role_permissions`: for every role of the table. */
    method EnsureRolePermissions()
      requires Stored(Now())
      modifies this`d
      ensures Stored(Now()) && d == old(d).(rolePermissions := d.rolePermissions)
      ensures forall rp :: rp in d.rolePermissions <==> rp in old(d).rolePermissions || InTable(policy, old(d), rp)
    {
      var names := policy.table.Keys;
      while names != {}
        invariant names <= policy.table.Keys
        invariant d == old(d).(rolePermissions := d.rolePermissions)
        invariant forall rp :: rp in d.rolePermissions
                          <==> rp in old(d).rolePermissions || (InTable(policy, old(d), rp) && d.roleNames[rp.0] !in names)
        decreases names
      {
        var name :| name in names;
        var role := FindRole(name);
        if role.Some? {
          EnsureCodesOfRole(role.value, policy.table[name]);
        } else {
          forall r | r in d.roleNames ensures d.roleNames[r] != name { assert !Named(d, r, name); }
        }
        names := names - {name};
      }
    }

    /** `get_by_username` */
    method FindUser(name: string) returns (found: Option<Id>)
      ensures found.Some? ==> found.value in usernames && usernames[found.value] == name
      ensures found.None? ==> name !in usernames.Values
    {
      var users := usernames.Keys;
      while users != {}
        invariant users <= usernames.Keys
        invariant forall u :: u in usernames && u !in users ==> usernames[u] != name
        decreases users
      {
        var u :| u in users;
        if usernames[u] == name {
          return Some(u);
        }
        users := users - {u};
      }
      return None;
    }

    /** The first, flushed part of `bootstrap_defaults`. */
    method EnsureDefaults()
      requires Stored(Now())
      modifies this`d
      ensures Stored(Now()) && CatalogueEnsured(policy, old(d), d) && d.bindings == old(d).bindings
    {
      EnsureDefaultPermissions();
      EnsureDefaultRoles();
      EnsureRolePermissions();
    }

    /** The administrator account of `bootstrap_defaults`, found or created. */
    method EnsureAdminUser(adminName: string) returns (uid: Id)
      requires Stored(Now())
      modifies this`usernames
      ensures Stored(Now()) && uid in usernames && usernames[uid] == adminName
      ensures forall u :: u in old(usernames) ==> u in usernames && usernames[u] == old(usernames)[u]
      ensures usernames.Keys == old(usernames).Keys + {uid}
    {
      var admin := FindUser(adminName);
      if admin.Some? {
        return admin.value;
      }
      uid := GenerateId(usernames.Keys);
      AddedNameIsUnique(usernames, uid, adminName);
      usernames := usernames[uid := adminName];
    }

    /** `bootstrap_defaults`, given an administrator password. */
    method BootstrapDefaults(adminName: string)
      requires Stored(Now()) && ADMIN in policy.table
      modifies this
      ensures Takes(policy, old(Now()), Bootstrap(adminName), Now())
    {
      EnsureDefaults();
      var uid := EnsureAdminUser(adminName);
      var role := FindRole(ADMIN);
      if role.None? {
        forall r | r in d.roleNames ensures d.roleNames[r] != ADMIN { assert !Named(d, r, ADMIN); }
      }
      ghost var before := Now();
      d := d.(bindings := d.bindings + {(uid, role.value)});
      AdminBound(policy, old(Now()), adminName, before, Now(), uid, role.value);
    }
  }

  lemma AdminBound(p: Policy, s: State, name: string, before: State, t: State, uid: Id, r: Id)
    requires Stored(s) && Stored(before) && CatalogueEnsured(p, s.d, before.d) && before.d.bindings == s.d.bindings
    requires uid in before.usernames && before.usernames[uid] == name && Named(before.d, r, ADMIN)
    requires forall u :: u in s.usernames ==> u in before.usernames && before.usernames[u] == s.usernames[u]
    requires before.usernames.Keys == s.usernames.Keys + {uid}
    requires t == before.(d := before.d.(bindings := before.d.bindings + {(uid, r)}))
    ensures Stored(t) && Bootstrapped(p, s, name, t)
  {
    assert name in t.usernames.Values;
    BoundStored(before, t, uid, r);
    assert CatalogueEnsured(p, s.d, t.d) by {
      forall rp ensures InTable(p, t.d, rp) <==> InTable(p, before.d, rp) {}
    }
    forall b ensures b in t.d.bindings
                     <==> b in s.d.bindings || (b.0 in t.usernames && t.usernames[b.0] == name && Named(t.d, b.1, ADMIN)) {
      if b.0 in t.usernames && t.usernames[b.0] == name && Named(t.d, b.1, ADMIN) { assert b == (uid, r); }
    }
  }

  lemma BoundStored(s: State, t: State, uid: Id, r: Id)
    requires Stored(s) && uid in s.usernames && Named(s.d, r, ADMIN)
    requires t == s.(d := s.d.(bindings := s.d.bindings + {(uid, r)}))
    ensures Stored(t)
  {
  }

  lemma AddedNameIsUnique(m: map<Id, string>, k: Id, v: string)
    requires UniqueNames(m) && k !in m && v !in m.Values
    ensures UniqueNames(m[k := v])
  {
  }

  lemma AddedValue<K, V>(m: map<K, V>, k: K, v: V)
    requires k !in m
    ensures m[k := v].Values == m.Values + {v}
  {
    var n := m[k := v];
    forall x ensures x in n.Values <==> x in m.Values + {v} {
      if x == v { assert n[k] == v; }
      if x in m.Values {
        var j :| j in m && m[j] == x;
        assert n[j] == x;
      }
    }
  }

  lemma BindsOneMore(d: Directory, u: Id, names: seq<string>, name: string, b: (Id, Id))
    ensures Binds(d, u, names + [name], b) <==> Binds(d, u, names, b) || (b.0 == u && Named(d, b.1, Key(name)))
  {
  }
}

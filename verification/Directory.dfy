/** Roles, role permissions and scoped grants as stored, and the queries that turn them
    into a user's role names, permission codes and scoped-access table
    (core/platform/auth/query.py; core/platform/auth/service.py, `build_principal`). */
module Directory {
  import opened Text
  import opened ScopedAccess

  type Id = string

  datatype Grant = Grant(scopeType: string, scopeId: string, userId: Id, role: string, codes: set<string>)

  datatype Directory = Directory(
    roleNames: map<Id, string>,
    bindings: set<(Id, Id)>,
    rolePermissions: set<(Id, Id)>,
    permissionCodes: map<Id, string>,
    grants: map<Id, Grant>)

  /** The codes of all permissions bound to some role bound to the user. */
  function UserPermissions(d: Directory, u: Id): set<string> {
    set rp | rp in d.rolePermissions && (u, rp.0) in d.bindings && rp.1 in d.permissionCodes
      :: d.permissionCodes[rp.1]
  }

  function UserRoleNames(d: Directory, u: Id): set<string> {
    set b | b in d.bindings && b.0 == u && b.1 in d.roleNames :: d.roleNames[b.1]
  }

  ghost predicate ListsRoles(d: Directory, u: Id, roleIds: seq<Id>) {
    forall r :: r in roleIds <==> (u, r) in d.bindings
  }

  /** `get_user_permissions`: collect permission ids role by role, then map ids to codes. */
  method GetUserPermissions(d: Directory, u: Id, roleIds: seq<Id>) returns (codes: set<string>)
    requires ListsRoles(d, u, roleIds)
    ensures codes == UserPermissions(d, u)
  {
    var ids: set<Id> := {};
    for k := 0 to |roleIds|
      invariant ids == set rp | rp in d.rolePermissions && rp.0 in roleIds[..k] :: rp.1
    {
      ids := ids + set rp | rp in d.rolePermissions && rp.0 == roleIds[k] :: rp.1;
      assert roleIds[..k + 1] == roleIds[..k] + [roleIds[k]];
    }
    assert roleIds[..|roleIds|] == roleIds;
    codes := set i | i in ids && i in d.permissionCodes :: d.permissionCodes[i];
    forall c ensures c in codes <==> c in UserPermissions(d, u) {
      if c in UserPermissions(d, u) {
        var rp :| rp in d.rolePermissions && (u, rp.0) in d.bindings && rp.1 in d.permissionCodes
                  && d.permissionCodes[rp.1] == c;
        assert rp.1 in ids;
      }
    }
  }

  /** `get_user_role_names`: look every bound role up and collect the names found. */
  method GetUserRoleNames(d: Directory, u: Id, roleIds: seq<Id>) returns (names: set<string>)
    requires ListsRoles(d, u, roleIds)
    ensures names == UserRoleNames(d, u)
  {
    names := {};
    for k := 0 to |roleIds|
      invariant names == set r | r in roleIds[..k] && r in d.roleNames :: d.roleNames[r]
    {
      if roleIds[k] in d.roleNames {
        names := names + {d.roleNames[roleIds[k]]};
      }
      assert roleIds[..k + 1] == roleIds[..k] + [roleIds[k]];
    }
    assert roleIds[..|roleIds|] == roleIds;
    forall n ensures n in names <==> n in UserRoleNames(d, u) {
      if n in UserRoleNames(d, u) {
        var b :| b in d.bindings && b.0 == u && b.1 in d.roleNames && d.roleNames[b.1] == n;
        assert b == (u, b.1);
      }
      if n in names {
        var r :| r in roleIds && r in d.roleNames && d.roleNames[r] == n;
        assert (u, r) in d.bindings && (u, r).1 in d.roleNames;
      }
    }
  }

  // ----- grants -------------------------------------------------------------

  function UserGrantTriples(d: Directory, u: Id): set<Triple> {
    set g, p | g in d.grants && d.grants[g].userId == u && p in d.grants[g].codes
      :: (d.grants[g].scopeType, d.grants[g].scopeId, p)
  }

  /** The scoped-access table that a principal of `u` carries. */
  function UserScopedAccess(d: Directory, u: Id): Table {
    FromTriples(NormalizeTriples(UserGrantTriples(d, u)))
  }

  function GrantsTriples(gs: seq<Grant>): set<Triple> {
    if gs == [] then
      {}
    else
      var last := gs[|gs| - 1];
      GrantsTriples(gs[..|gs| - 1]) + RowTriples(last.scopeType, (last.scopeId, last.codes))
  }

  lemma {:induction false} GrantsTriplesAt(gs: seq<Grant>, x: Triple)
    ensures x in GrantsTriples(gs)
       <==> exists k :: 0 <= k < |gs| && gs[k].scopeType == x.0 && gs[k].scopeId == x.1 && x.2 in gs[k].codes
  {
    if gs != [] {
      var front := gs[..|gs| - 1];
      GrantsTriplesAt(front, x);
      assert forall k :: 0 <= k < |front| ==> front[k] == gs[k];
      var last := gs[|gs| - 1];
      assert x in RowTriples(last.scopeType, (last.scopeId, last.codes))
        <==> last.scopeType == x.0 && last.scopeId == x.1 && x.2 in last.codes;
    }
  }

  /** The grant loop of `build_principal`, over the user's grants in any order. */
  method BuildScopedAccess(d: Directory, u: Id, listed: seq<Grant>) returns (m: Table)
    requires forall g :: g in listed <==> g in d.grants.Values && g.userId == u
    ensures m == UserScopedAccess(d, u)
  {
    m := map[];
    for k := 0 to |listed|
      invariant Tight(m) && Triples(m) == NormalizeTriples(GrantsTriples(listed[..k]))
    {
      assert listed[..k + 1][..k] == listed[..k];
      NormalizeTriplesUnion(GrantsTriples(listed[..k]),
                            RowTriples(listed[k].scopeType, (listed[k].scopeId, listed[k].codes)));
      m := Merge(m, listed[k].scopeType, listed[k].scopeId, listed[k].codes);
    }
    assert listed[..|listed|] == listed;
    assert GrantsTriples(listed) == UserGrantTriples(d, u) by {
      forall x: Triple ensures x in GrantsTriples(listed) <==> x in UserGrantTriples(d, u) {
        GrantsTriplesAt(listed, x);
        if x in UserGrantTriples(d, u) {
          var g, p :| g in d.grants && d.grants[g].userId == u && p in d.grants[g].codes
                      && x == (d.grants[g].scopeType, d.grants[g].scopeId, p);
          assert d.grants[g] in listed;
        }
        if x in GrantsTriples(listed) {
          var k :| 0 <= k < |listed| && listed[k].scopeType == x.0 && listed[k].scopeId == x.1 && x.2 in listed[k].codes;
          assert listed[k] in listed;
          var g :| g in d.grants && d.grants[g] == listed[k];
          assert x == (d.grants[g].scopeType, d.grants[g].scopeId, x.2);
        }
      }
    }
    FromTriplesMeaning(Triples(m));
    TightIsUnique(m, UserScopedAccess(d, u));
  }
}

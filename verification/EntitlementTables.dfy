/** The stored entitlement tables: how the repository reads and writes rows under current
    and legacy module codes (infra/platform/db/modules/repository.py), and the migrations
    that produced the rows. */
module EntitlementTables {
  import opened Text
  import M = ModuleCatalog

  type Org = M.Org
  type Code = M.Code

  /** The one legacy alias: rows may still be stored under the old code. */
  const LEGACY: Code := "payroll"
  const CURRENT: Code := "hr_management"

  /** One row of `organization_module_entitlements`. */
  datatype Row = Row(org: Org, code: Code, licensed: bool, enabled: bool, status: Option<string>)

  /** A record as the repository shows it: the status still as text. */
  datatype Shown = Shown(licensed: bool, enabled: bool, status: string)

  /** `normalize_module_code` on codes that are already trimmed and lower-case. */
  function CurrentCode(code: Code): Code {
    if code == LEGACY then CURRENT else code
  }

  /** The primary key (organization_id, module_code). */
  ghost predicate UniqueKeys(t: set<Row>) {
    forall r, q :: r in t && q in t && r.org == q.org && r.code == q.code ==> r == q
  }

  function NormalStatus(status: Option<string>): string {
    var k := if status.None? then "" else Key(status.value);
    if k == "" then "inactive" else k
  }

  /** `_to_record` */
  function ToShown(r: Row): Shown {
    Shown(r.licensed, r.enabled && r.licensed, NormalStatus(r.status))
  }

  predicate HasRow(t: set<Row>, o: Org, c: Code) {
    exists r :: r in t && r.org == o && r.code == c
  }

  /** The row from which organization `o`'s record for canonical code `c` is read: the one
      under that code, or the legacy one if there is none. */
  predicate Preferred(t: set<Row>, o: Org, c: Code, r: Row) {
    && r in t && r.org == o && CurrentCode(r.code) == c
    && (r.code == c || !HasRow(t, o, c))
  }

  ghost predicate Shows(t: set<Row>, o: Org, c: Code, x: Shown) {
    exists r :: Preferred(t, o, c, r) && ToShown(r) == x
  }

  // ----- the repository --------------------------------------------------------------------

  /** `list_all_for_organization`: the dictionary is filled row by row; a legacy row never
      displaces a record and a current row always does. */
  method ListAllForOrganization(t: set<Row>, o: Org, rows: seq<Row>) returns (m: map<Code, Shown>)
    requires forall r :: r in rows <==> r in t && r.org == o
    ensures forall c :: c in m <==> exists x :: Shows(t, o, c, x)
    ensures forall c :: c in m ==> Shows(t, o, c, m[c])
  {
    m := map[];
    ghost var seen: set<Row> := {};
    for k := 0 to |rows|
      invariant (forall r :: r in seen <==> r in rows[..k]) && seen <= t
      invariant forall c :: c in m ==> Shows(seen, o, c, m[c])
      invariant forall r :: r in seen ==> CurrentCode(r.code) in m
    {
      var row := rows[k];
      var c := CurrentCode(row.code);
      assert rows[..k + 1] == rows[..k] + [row];
      assert row in rows;
      ghost var before, dict := seen, m;
      seen := seen + {row};
      if !(c in m && row.code != c) {
        m := m[c := ToShown(row)];
      }
      ListStep(before, o, row, dict, m);
    }
    assert rows[..|rows|] == rows;
    ListIsComplete(t, seen, o, m);
  }

  lemma ListIsComplete(t: set<Row>, mine: set<Row>, o: Org, m: map<Code, Shown>)
    requires mine <= t && forall r :: r in mine <==> r in t && r.org == o
    requires forall c :: c in m ==> Shows(mine, o, c, m[c])
    requires forall r :: r in mine ==> CurrentCode(r.code) in m
    ensures forall c :: c in m <==> exists x :: Shows(t, o, c, x)
    ensures forall c :: c in m ==> Shows(t, o, c, m[c])
  {
    forall c ensures c in m <==> exists x :: Shows(t, o, c, x) {
      ShownAgain(t, mine, o, c);
    }
    forall c | c in m ensures Shows(t, o, c, m[c]) {
      ShownAgain(t, mine, o, c);
    }
  }

  lemma ListStep(seen: set<Row>, o: Org, row: Row, m: map<Code, Shown>, m': map<Code, Shown>)
    requires row.org == o
    requires forall c :: c in m ==> Shows(seen, o, c, m[c])
    requires forall r :: r in seen ==> CurrentCode(r.code) in m
    requires var c := CurrentCode(row.code); m' == if c in m && row.code != c then m else m[c := ToShown(row)]
    ensures forall c :: c in m' ==> Shows(seen + {row}, o, c, m'[c])
    ensures forall r :: r in seen + {row} ==> CurrentCode(r.code) in m'
  {
  }

  lemma ShownAgain(t: set<Row>, mine: set<Row>, o: Org, c: Code)
    requires mine <= t && forall r :: r in t && r.org == o ==> r in mine
    ensures forall x :: Shows(mine, o, c, x) <==> Shows(t, o, c, x)
    ensures (exists x :: Shows(t, o, c, x)) <==> exists r :: r in mine && r.org == o && CurrentCode(r.code) == c
  {
    assert HasRow(mine, o, c) <==> HasRow(t, o, c);
    forall r ensures Preferred(mine, o, c, r) <==> Preferred(t, o, c, r) {}
    forall x ensures Shows(mine, o, c, x) <==> Shows(t, o, c, x) {
      if Shows(mine, o, c, x) {
        var r :| Preferred(mine, o, c, r) && ToShown(r) == x;
        assert Preferred(t, o, c, r);
      }
      if Shows(t, o, c, x) {
        var r :| Preferred(t, o, c, r) && ToShown(r) == x;
        assert Preferred(mine, o, c, r);
      }
    }
    if exists r :: r in mine && r.org == o && CurrentCode(r.code) == c {
      var r :| r in mine && r.org == o && CurrentCode(r.code) == c;
      if HasRow(t, o, c) {
        var q :| q in t && q.org == o && q.code == c;
        CurrentCodeTwice(r.code);
        assert Preferred(t, o, c, q);
        assert Shows(t, o, c, ToShown(q));
      } else {
        assert Preferred(t, o, c, r);
        assert Shows(t, o, c, ToShown(r));
      }
    }
  }

  lemma CurrentCodeTwice(c: Code)
    ensures CurrentCode(CurrentCode(c)) == CurrentCode(c)
  {
  }

  /** `upsert_for_organization`: one row under the canonical code survives. */
  function Upsert(t: set<Row>, o: Org, code: Code, x: Shown): set<Row> {
    var c := CurrentCode(code);
    (set r | r in t && !(r.org == o && CurrentCode(r.code) == c))
    + {Row(o, c, x.licensed, x.enabled && x.licensed, Some(NormalStatus(Some(x.status))))}
  }

  method UpsertForOrganization(t: set<Row>, o: Org, code: Code, x: Shown) returns (t': set<Row>)
    requires UniqueKeys(t)
    ensures t' == Upsert(t, o, code, x)
  {
    var c := CurrentCode(code);
    var rows := set r | r in t && r.org == o && CurrentCode(r.code) == c;
    t' := t;
    // Keep one row as the object to change; delete the others.
    var extra := rows;
    while extra != {}
      invariant extra <= rows && t' == t - (rows - extra)
      decreases extra
    {
      var r :| r in extra;
      t' := t' - {r};
      extra := extra - {r};
    }
    var status := Key(x.status);
    if status == "" {
      status := "inactive";
    }
    t' := t' + {Row(o, c, x.licensed, x.enabled && x.licensed, Some(status))};
  }

  /** Writing through the repository is an update of the dictionary it shows: the written
      code, under either spelling, shows the new record; everything else is untouched. */
  lemma UpsertRefinesMapUpdate(t: set<Row>, o: Org, code: Code, x: Shown, p: Org, c: Code, y: Shown)
    requires UniqueKeys(t)
    ensures UniqueKeys(Upsert(t, o, code, x))
    ensures Shows(Upsert(t, o, code, x), p, c, y)
       <==> if p == o && c == CurrentCode(code)
            then y == Shown(x.licensed, x.enabled && x.licensed, NormalStatus(Some(x.status)))
            else Shows(t, p, c, y)
  {
    var t', k := Upsert(t, o, code, x), CurrentCode(code);
    var row := Row(o, k, x.licensed, x.enabled && x.licensed, Some(NormalStatus(Some(x.status))));
    CurrentCodeTwice(code);
    NormalStatusTwice(x.status);
    if p == o && c == k {
      assert HasRow(t', o, k) by { assert row in t'; }
      assert Preferred(t', o, k, row);
      forall r | Preferred(t', o, k, r) ensures r == row {}
    } else {
      forall r: Row | r.org == p && CurrentCode(r.code) == c ensures r in t' <==> r in t {}
      SameRowsSamePreferred(t, t', p, c);
      SamePreferred(t, t', p, c, y);
    }
  }

  lemma SameRowsSamePreferred(t: set<Row>, t': set<Row>, o: Org, c: Code)
    requires forall r: Row | r.org == o && CurrentCode(r.code) == c :: r in t' <==> r in t
    ensures forall r :: Preferred(t', o, c, r) <==> Preferred(t, o, c, r)
  {
  }

  lemma SamePreferred(t: set<Row>, t': set<Row>, o: Org, c: Code, y: Shown)
    requires forall r :: Preferred(t', o, c, r) <==> Preferred(t, o, c, r)
    ensures Shows(t', o, c, y) <==> Shows(t, o, c, y)
  {
  }

  lemma NormalStatusTwice(status: string)
    ensures NormalStatus(Some(NormalStatus(Some(status)))) == NormalStatus(Some(status))
  {
    KeyIdempotent(status);
    LowerTextIsKey("inactive");
  }

  // ----- the rows behind a catalogue ------------------------------------------------------------

  function StatusText(s: M.Status): string {
    match s
    case Inactive => "inactive"
    case Active => "active"
    case Trial => "trial"
    case Suspended => "suspended"
    case Expired => "expired"
  }

  /** How the repository shows a record of the catalogue. */
  function ShownAs(r: M.Record): Shown {
    Shown(r.licensed, r.enabled && r.licensed, StatusText(r.status))
  }

  /** The rows of every organization show exactly its records in the catalogue. */
  ghost predicate Represents(t: set<Row>, s: M.Catalog) {
    forall o, c, x :: Shows(t, o, c, x) <==> c in M.RecordsOf(s, o) && x == ShownAs(M.RecordsOf(s, o)[c])
  }

  lemma StatusTextIsNormal(s: M.Status)
    ensures NormalStatus(Some(StatusText(s))) == StatusText(s) != "" && M.ParseStatus(StatusText(s)) == Some(s)
  {
    LowerTextIsKey(StatusText(s));
  }

  lemma UpsertOfCode(cfg: M.Config, t: set<Row>, s: M.Catalog, code: Code, r: M.Record)
    requires cfg.repository && s.current.Some? && CurrentCode(code) == code
    requires UniqueKeys(t) && Represents(t, s)
    ensures Represents(Upsert(t, s.current.value, code, ShownAs(r)), M.Persist(cfg, s, code, r))
  {
    var o, s' := s.current.value, M.Persist(cfg, s, code, r);
    StatusTextIsNormal(r.status);
    forall p, c, x
      ensures Shows(Upsert(t, o, code, ShownAs(r)), p, c, x)
         <==> c in M.RecordsOf(s', p) && x == ShownAs(M.RecordsOf(s', p)[c])
    {
      UpsertRefinesMapUpdate(t, o, code, ShownAs(r), p, c, x);
    }
  }

  /** A catalogue code is its own storage code when the alias table is the repository's. */
  lemma CatalogueCodesAreCurrent(cfg: M.Config, code: string)
    requires cfg.aliases == map[LEGACY := CURRENT]
    ensures M.Canonical(cfg, code) == CurrentCode(Key(code)) == CurrentCode(CurrentCode(Key(code)))
  {
  }

  /** Persisting a record in the catalogue is upserting it into the rows, under whatever
      spelling of the module code, the legacy one included: the rows represent the new
      catalogue, all other codes and organizations included. */
  lemma UpsertIsPersist(cfg: M.Config, t: set<Row>, s: M.Catalog, code: string, r: M.Record)
    requires cfg.repository && s.current.Some? && cfg.aliases == map[LEGACY := CURRENT]
    requires UniqueKeys(t) && Represents(t, s)
    ensures Represents(Upsert(t, s.current.value, Key(code), ShownAs(r)), M.Persist(cfg, s, M.Canonical(cfg, code), r))
    ensures UniqueKeys(Upsert(t, s.current.value, Key(code), ShownAs(r)))
  {
    CatalogueCodesAreCurrent(cfg, code);
    UpsertOfCode(cfg, t, s, M.Canonical(cfg, code), r);
    assert Upsert(t, s.current.value, Key(code), ShownAs(r)) == Upsert(t, s.current.value, M.Canonical(cfg, code), ShownAs(r));
  }

  // ----- renaming the payroll module ------------------------------------------------------------

  /** The DELETE of the rename: legacy rows whose organization already has the current code. */
  function WithoutShadowed(t: set<Row>): set<Row> {
    set r | r in t && !(r.code == LEGACY && HasRow(t, r.org, CURRENT))
  }

  function Renamed(r: Row): Row {
    if r.code == LEGACY then r.(code := CURRENT) else r
  }

  /** DELETE, then UPDATE. */
  function RenameUpgrade(t: set<Row>): set<Row> {
    set r | r in WithoutShadowed(t) :: Renamed(r)
  }

  method RenamePayroll(t: set<Row>) returns (t': set<Row>)
    requires UniqueKeys(t)
    ensures t' == RenameUpgrade(t) && UniqueKeys(t')
  {
    t' := t;
    var doomed := set r | r in t && r.code == LEGACY && HasRow(t, r.org, CURRENT);
    t' := t' - doomed;
    var legacy := set r | r in t' && r.code == LEGACY;
    t' := t' - legacy;
    t' := t' + set r | r in legacy :: r.(code := CURRENT);
    forall r ensures r in t' <==> r in RenameUpgrade(t) {
      if r in RenameUpgrade(t) {
        var q :| q in WithoutShadowed(t) && Renamed(q) == r;
        assert q in legacy || q == r;
      }
      if r in t' && r !in WithoutShadowed(t) {
        var q :| q in legacy && r == q.(code := CURRENT);
        assert q in WithoutShadowed(t) && Renamed(q) == r;
      } else if r in t' {
        assert Renamed(r) == r;
      }
    }
    RenameKeepsKeysUnique(t);
  }

  /** The UPDATE never collides with an existing row: keys stay unique and no row that
      survived the DELETE is lost. */
  lemma RenameKeepsKeysUnique(t: set<Row>)
    requires UniqueKeys(t)
    ensures UniqueKeys(RenameUpgrade(t))
    ensures forall r, q :: r in WithoutShadowed(t) && q in WithoutShadowed(t) && Renamed(r) == Renamed(q) ==> r == q
    ensures forall r :: r in RenameUpgrade(t) ==> r.code != LEGACY
  {
  }

  /** The rename is invisible through the repository: every organization, also one that had
      rows under both codes, shows the same record for every code. */
  lemma RenameIsInvisible(t: set<Row>, o: Org, c: Code, x: Shown)
    requires UniqueKeys(t)
    ensures Shows(RenameUpgrade(t), o, c, x) <==> Shows(t, o, c, x)
  {
    var t' := RenameUpgrade(t);
    if Shows(t, o, c, x) {
      var r :| Preferred(t, o, c, r) && ToShown(r) == x;
      assert r in WithoutShadowed(t) by {
        if r.code == LEGACY { assert c == CURRENT && !HasRow(t, o, CURRENT); }
      }
      assert Renamed(r) in t' && Renamed(r).code == c;
      assert Preferred(t', o, c, Renamed(r));
    }
    if Shows(t', o, c, x) {
      var q :| Preferred(t', o, c, q) && ToShown(q) == x;
      var r :| r in WithoutShadowed(t) && Renamed(r) == q;
      assert Preferred(t, o, c, r);
    }
  }

  /** So the rows represent the same catalogue before and after. */
  lemma RenameRepresentsTheSame(t: set<Row>, s: M.Catalog)
    requires UniqueKeys(t) && Represents(t, s)
    ensures Represents(RenameUpgrade(t), s)
  {
    forall o, c, x ensures Shows(RenameUpgrade(t), o, c, x) <==> Shows(t, o, c, x) {
      RenameIsInvisible(t, o, c, x);
    }
  }

  /** The normalised codes that `_effective_codes` would collect from raw rows, which takes
      every row at face value. */
  function LicensedCodes(t: set<Row>, o: Org): set<Code> {
    set r | r in t && r.org == o && r.licensed :: CurrentCode(r.code)
  }

  function EnabledCodes(t: set<Row>, o: Org): set<Code> {
    set r | r in t && r.org == o && r.licensed && r.enabled && NormalStatus(r.status) in {"active", "trial"} :: CurrentCode(r.code)
  }

  predicate Grants(r: Row, enabling: bool) {
    r.licensed && (enabling ==> r.enabled && NormalStatus(r.status) in {"active", "trial"})
  }

  /** Some row under the legacy code grants what the row under the current code does not. */
  predicate LegacyGrantsMore(t: set<Row>, o: Org, enabling: bool) {
    exists r, q :: r in t && q in t && r.org == o && q.org == o && r.code == LEGACY && q.code == CURRENT
                   && Grants(r, enabling) && !Grants(q, enabling)
  }

  function GrantedCodes(t: set<Row>, o: Org, enabling: bool): set<Code> {
    if enabling then EnabledCodes(t, o) else LicensedCodes(t, o)
  }

  lemma GrantedMember(t: set<Row>, o: Org, enabling: bool, c: Code)
    ensures c in GrantedCodes(t, o, enabling) <==> exists r :: r in t && r.org == o && Grants(r, enabling) && CurrentCode(r.code) == c
  {
  }

  /** Collected from raw rows, an organization's licensed (or enabled) codes are unchanged by
      the rename exactly when no legacy row grants what the current row beside it does not;
      in particular for organizations without rows under both codes. */
  lemma RenameKeepsGrantedCodes(t: set<Row>, o: Org, enabling: bool)
    requires UniqueKeys(t)
    ensures GrantedCodes(RenameUpgrade(t), o, enabling) == GrantedCodes(t, o, enabling) <==> !LegacyGrantsMore(t, o, enabling)
    ensures !(HasRow(t, o, LEGACY) && HasRow(t, o, CURRENT)) ==> !LegacyGrantsMore(t, o, enabling)
  {
    var t' := RenameUpgrade(t);
    forall c | c in GrantedCodes(t', o, enabling) ensures c in GrantedCodes(t, o, enabling) {
      RenameGrantsNothingNew(t, o, enabling, c);
    }
    if LegacyGrantsMore(t, o, enabling) {
      LegacyGrantIsLost(t, o, enabling);
    } else {
      forall c | c in GrantedCodes(t, o, enabling) ensures c in GrantedCodes(t', o, enabling) {
        GrantSurvives(t, o, enabling, c);
      }
    }
  }

  lemma RenameGrantsNothingNew(t: set<Row>, o: Org, enabling: bool, c: Code)
    requires c in GrantedCodes(RenameUpgrade(t), o, enabling)
    ensures c in GrantedCodes(t, o, enabling)
  {
  }

  lemma GrantSurvives(t: set<Row>, o: Org, enabling: bool, c: Code)
    requires c in GrantedCodes(t, o, enabling) && !LegacyGrantsMore(t, o, enabling)
    ensures c in GrantedCodes(RenameUpgrade(t), o, enabling)
  {
    GrantedMember(t, o, enabling, c);
    GrantedMember(RenameUpgrade(t), o, enabling, c);
    var r :| r in t && r.org == o && Grants(r, enabling) && CurrentCode(r.code) == c;
    var q := r;
    if r !in WithoutShadowed(t) {
      q :| q in t && q.org == o && q.code == CURRENT;
    }
    assert q in WithoutShadowed(t) && Renamed(q) in RenameUpgrade(t);
    assert Grants(Renamed(q), enabling) && CurrentCode(Renamed(q).code) == c;
  }

  lemma LegacyGrantIsLost(t: set<Row>, o: Org, enabling: bool)
    requires UniqueKeys(t) && LegacyGrantsMore(t, o, enabling)
    ensures CURRENT in GrantedCodes(t, o, enabling) && CURRENT !in GrantedCodes(RenameUpgrade(t), o, enabling)
  {
  }

  /** An organization with an unlicensed row under the current code beside a licensed legacy
      one loses the module from its licensed codes. */
  lemma RenameDropsLegacyLicense(r: Row, q: Row)
    requires r == Row("o", LEGACY, true, true, Some("active")) && q == Row("o", CURRENT, false, false, Some("inactive"))
    ensures UniqueKeys({r, q})
    ensures CURRENT in LicensedCodes({r, q}, "o") && CURRENT !in LicensedCodes(RenameUpgrade({r, q}), "o")
  {
    assert r.code != q.code by { assert |LEGACY| != |CURRENT|; }
    assert r in {r, q} && q in {r, q} && Grants(r, false) && !Grants(q, false);
    LegacyGrantIsLost({r, q}, "o", false);
  }

  // ----- backfilling the lifecycle status -----------------------------------------------------------

  predicate Blank(status: Option<string>) {
    status.None? || status.value == "" || status.value == "inactive"
  }

  function Backfilled(r: Row): Row {
    if Blank(r.status) then r.(status := Some(if r.licensed then "active" else "inactive")) else r
  }

  /** The upgrade of the lifecycle migration: the new column starts out as `inactive`
      everywhere, then blank statuses are recomputed. */
  method BackfillLifecycle(t: seq<Row>, hasColumn: bool) returns (t': seq<Row>)
    ensures |t'| == |t|
    ensures forall k :: 0 <= k < |t| ==>
              t'[k] == Backfilled(if hasColumn then t[k] else t[k].(status := Some("inactive")))
  {
    t' := t;
    if !hasColumn {
      t' := seq(|t|, k requires 0 <= k < |t| => t[k].(status := Some("inactive")));
    }
    ghost var start := t';
    for k := 0 to |t'|
      invariant |t'| == |t| == |start|
      invariant forall j :: 0 <= j < |t| ==> t'[j] == if j < k then Backfilled(start[j]) else start[j]
    {
      if t'[k].status.None? || t'[k].status.value == "" || t'[k].status.value == "inactive" {
        t' := t'[k := t'[k].(status := Some(if t'[k].licensed then "active" else "inactive"))];
      }
    }
  }

  /** The licensed/status part of the catalogue invariant, on the record as it is shown. */
  predicate StatusMatchesLicense(x: Shown) {
    !x.licensed <==> x.status == "inactive"
  }

  /** A row that the UPDATE passes over although its status contradicts its license: written
      neither blank nor exactly `inactive`, yet read as inactive while licensed, or as
      another status while not. */
  predicate Overlooked(r: Row) {
    !Blank(r.status) && (r.licensed <==> NormalStatus(r.status) == "inactive")
  }

  /** After the backfill a row is shown with a status that matches its license exactly when
      it was not overlooked; so all rows are when the column is new, and running the backfill
      again changes nothing. */
  lemma BackfillEstablishesStatus(r: Row)
    ensures StatusMatchesLicense(ToShown(Backfilled(r))) <==> !Overlooked(r)
    ensures StatusMatchesLicense(ToShown(Backfilled(r.(status := Some("inactive")))))
    ensures Backfilled(Backfilled(r)) == Backfilled(r)
  {
    LowerTextIsKey("active");
    LowerTextIsKey("inactive");
    assert "active" != "inactive" by { assert |"active"| != |"inactive"|; }
  }

  /** A row whose status was missing, empty or `inactive` is shown afterwards as exactly active
      when it is licensed and as inactive when it is not; any other row is shown as before. */
  lemma BackfillShowsLicense(r: Row)
    ensures var x := ToShown(Backfilled(r));
            && x.licensed == r.licensed && x.enabled == (r.enabled && r.licensed)
            && (r.status in {None, Some(""), Some("inactive")} ==> x.status == if r.licensed then "active" else "inactive")
            && (r.status !in {None, Some(""), Some("inactive")} ==> x == ToShown(r))
  {
    LowerTextIsKey("active");
    LowerTextIsKey("inactive");
  }

  /** Licensed rows with the status in capitals or a blank for a status stay licensed and
      inactive. */
  lemma BackfillOverlooksSpellings(r: Row)
    requires r.licensed && r.status in {Some("INACTIVE"), Some(" ")}
    ensures Backfilled(r) == r && !StatusMatchesLicense(ToShown(Backfilled(r)))
  {
    if r.status == Some(" ") {
      assert Strip(" ") == "" by { assert StripLeft(" ") == StripLeft(" "[1..]); }
      assert " " != "" && " " != "inactive" by { assert |" "| == 1 && |"inactive"| == 8; }
    } else {
      TrimmedIsFixed("INACTIVE");
      assert Lower("INACTIVE") == "inactive";
      assert "INACTIVE" != "inactive" by { assert "INACTIVE"[0] != "inactive"[0]; }
    }
  }

  // ----- scoping by organization and back --------------------------------------------------------------

  /** A row of the unscoped table `module_entitlements`. */
  datatype Plain = Plain(code: Code, licensed: bool, enabled: bool, updated: int)

  datatype Scoped = Scoped(org: Org, row: Plain)

  /** `organizations` in organization_code order. */
  datatype Organization = Organization(id: Org, active: bool)

  datatype Database = Database(organizations: seq<Organization>, plain: Option<seq<Plain>>, scoped: Option<seq<Scoped>>)

  const DEFAULT_ORG: Org := "org-default"

  function FirstActive(os: seq<Organization>): Option<Org> {
    if os == [] then None else if os[0].active then Some(os[0].id) else FirstActive(os[1..])
  }

  /** `_organization_seed_id`, and the organizations it leaves. */
  function Seed(os: seq<Organization>): (Org, seq<Organization>) {
    if FirstActive(os).Some? then (FirstActive(os).value, os)
    else if os != [] then (os[0].id, os)
    else (DEFAULT_ORG, [Organization(DEFAULT_ORG, true)])
  }

  /** The seed is the first active organization; the first one when none is active; and a new
      active default organization when there is none. */
  lemma SeedIsFirstActive(os: seq<Organization>)
    ensures forall k :: 0 <= k < |os| && os[k].active && (forall j :: 0 <= j < k ==> !os[j].active) ==> Seed(os) == (os[k].id, os)
    ensures os != [] && (forall j :: 0 <= j < |os| ==> !os[j].active) ==> Seed(os) == (os[0].id, os)
    ensures os == [] ==> Seed(os) == ("org-default", [Organization("org-default", true)])
  {
    FirstActiveIsFirst(os);
  }

  lemma {:induction false} FirstActiveIsFirst(os: seq<Organization>)
    ensures forall k :: 0 <= k < |os| && os[k].active && (forall j :: 0 <= j < k ==> !os[j].active) ==> FirstActive(os) == Some(os[k].id)
    ensures (forall j :: 0 <= j < |os| ==> !os[j].active) ==> FirstActive(os) == None
  {
    if os != [] {
      var rest := os[1..];
      FirstActiveIsFirst(rest);
      forall k | 0 <= k < |os| && os[k].active && (forall j :: 0 <= j < k ==> !os[j].active) ensures FirstActive(os) == Some(os[k].id) {
        if k > 0 {
          assert rest[k - 1] == os[k];
          assert forall j :: 0 <= j < k - 1 ==> rest[j] == os[j + 1];
        }
      }
      assert forall j :: 0 <= j < |rest| ==> rest[j] == os[j + 1];
    }
  }

  lemma SeedIsStable(os: seq<Organization>)
    ensures Seed(Seed(os).1) == Seed(os)
  {
  }

  predicate HasScoped(t: seq<Scoped>, o: Org, c: Code) {
    exists k :: 0 <= k < |t| && t[k].org == o && t[k].row.code == c
  }

  predicate HasPlain(t: seq<Plain>, c: Code) {
    exists k :: 0 <= k < |t| && t[k].code == c
  }

  function Tagged(o: Org, rows: seq<Plain>): seq<Scoped> {
    seq(|rows|, k requires 0 <= k < |rows| => Scoped(o, rows[k]))
  }

  function Of(t: seq<Scoped>, o: Org): seq<Plain> {
    if t == [] then [] else (if t[0].org == o then [t[0].row] else []) + Of(t[1..], o)
  }

  predicate Distinct(rows: seq<Plain>) {
    forall j, k :: 0 <= j < k < |rows| ==> rows[j].code != rows[k].code
  }

  lemma NewScopedClash(t: seq<Scoped>, o: Org, rows: seq<Plain>, k: nat)
    requires Distinct(rows) && k < |rows|
    ensures HasScoped(t + Tagged(o, rows[..k]), o, rows[k].code) <==> HasScoped(t, o, rows[k].code)
  {
    var t', c := t + Tagged(o, rows[..k]), rows[k].code;
    if HasScoped(t, o, c) {
      var i :| 0 <= i < |t| && t[i].org == o && t[i].row.code == c;
      assert t'[i] == t[i];
    }
    assert forall i :: |t| <= i < |t'| ==> t'[i].row == rows[i - |t|] && t'[i].row.code != c;
    if HasScoped(t', o, c) {
      var i :| 0 <= i < |t'| && t'[i].org == o && t'[i].row.code == c;
      assert t[i] == t'[i];
    }
  }

  lemma NewPlainClash(t: seq<Plain>, rows: seq<Plain>, k: nat)
    requires Distinct(rows) && k < |rows|
    ensures HasPlain(t + rows[..k], rows[k].code) <==> HasPlain(t, rows[k].code)
  {
    var t', c := t + rows[..k], rows[k].code;
    if HasPlain(t, c) {
      var i :| 0 <= i < |t| && t[i].code == c;
      assert t'[i] == t[i];
    }
    assert forall i :: |t| <= i < |t'| ==> t'[i] == rows[i - |t|] && t'[i].code != c;
    if HasPlain(t', c) {
      var i :| 0 <= i < |t'| && t'[i].code == c;
      assert t[i] == t'[i];
    }
  }

  /** INSERT row by row under the primary key (organization_id, module_code); a duplicate
      key aborts. */
  method InsertScoped(t: seq<Scoped>, o: Org, rows: seq<Plain>) returns (ok: bool, t': seq<Scoped>)
    requires Distinct(rows)
    ensures ok <==> forall k :: 0 <= k < |rows| ==> !HasScoped(t, o, rows[k].code)
    ensures ok ==> t' == t + Tagged(o, rows)
  {
    t' := t;
    for k := 0 to |rows|
      invariant t' == t + Tagged(o, rows[..k])
      invariant forall j :: 0 <= j < k ==> !HasScoped(t, o, rows[j].code)
    {
      ghost var before := t';
      var clash := false;
      for j := 0 to |t'|
        invariant clash <==> exists i :: 0 <= i < j && t'[i].org == o && t'[i].row.code == rows[k].code
      {
        if t'[j].org == o && t'[j].row.code == rows[k].code {
          clash := true;
        }
      }
      NewScopedClash(t, o, rows, k);
      if clash {
        return false, t';
      }
      t' := t' + [Scoped(o, rows[k])];
      assert Tagged(o, rows[..k + 1]) == Tagged(o, rows[..k]) + [Scoped(o, rows[k])];
    }
    assert rows[..|rows|] == rows;
    return true, t';
  }

  method InsertPlain(t: seq<Plain>, rows: seq<Plain>) returns (ok: bool, t': seq<Plain>)
    requires Distinct(rows)
    ensures ok <==> forall k :: 0 <= k < |rows| ==> !HasPlain(t, rows[k].code)
    ensures ok ==> t' == t + rows
  {
    t' := t;
    for k := 0 to |rows|
      invariant t' == t + rows[..k]
      invariant forall j :: 0 <= j < k ==> !HasPlain(t, rows[j].code)
    {
      var clash := false;
      for j := 0 to |t'|
        invariant clash <==> exists i :: 0 <= i < j && t'[i].code == rows[k].code
      {
        if t'[j].code == rows[k].code {
          clash := true;
        }
      }
      NewPlainClash(t, rows, k);
      if clash {
        return false, t';
      }
      t' := t' + [rows[k]];
    }
    assert rows[..|rows|] == rows;
    return true, t';
  }

  ghost predicate UniqueRows(db: Database) {
    && (db.plain.Some? ==> Distinct(db.plain.value))
    && (db.scoped.Some? ==> forall o :: Distinct(Of(db.scoped.value, o)))
  }

  function ScopedOf(db: Database): seq<Scoped> {
    if db.scoped.Some? then db.scoped.value else []
  }

  /** What a successful upgrade leaves. */
  function ScopeUp(db: Database): Database {
    match db.plain
    case None => db.(scoped := Some(ScopedOf(db)))
    case Some(rows) =>
      var (o, os) := Seed(db.organizations);
      Database(os, None, Some(ScopedOf(db) + Tagged(o, rows)))
  }

  predicate ScopeUpFits(db: Database) {
    db.plain.Some? ==>
      var rows, o := db.plain.value, Seed(db.organizations).0;
      forall k :: 0 <= k < |rows| ==> !HasScoped(ScopedOf(db), o, rows[k].code)
  }

  method ScopeUpgrade(db: Database) returns (ok: bool, db': Database)
    requires UniqueRows(db)
    ensures ok <==> ScopeUpFits(db)
    ensures ok ==> db' == ScopeUp(db)
  {
    var scoped := if db.scoped.None? then [] else db.scoped.value;
    if db.plain.None? {
      return true, db.(scoped := Some(scoped));
    }
    var (o, os) := Seed(db.organizations);
    var t;
    ok, t := InsertScoped(scoped, o, db.plain.value);
    return ok, Database(os, None, Some(t));
  }

  /** What a successful downgrade leaves. */
  function ScopeDown(db: Database): Database {
    var plain := if db.plain.Some? then db.plain.value else [];
    match db.scoped
    case None => db.(plain := Some(plain))
    case Some(t) =>
      var (o, os) := Seed(db.organizations);
      Database(os, Some(plain + Of(t, o)), None)
  }

  predicate ScopeDownFits(db: Database) {
    db.plain.Some? && db.scoped.Some? ==>
      var rows := Of(db.scoped.value, Seed(db.organizations).0);
      forall k :: 0 <= k < |rows| ==> !HasPlain(db.plain.value, rows[k].code)
  }

  method ScopeDowngrade(db: Database) returns (ok: bool, db': Database)
    requires UniqueRows(db)
    ensures ok <==> ScopeDownFits(db)
    ensures ok ==> db' == ScopeDown(db)
  {
    var plain := if db.plain.None? then [] else db.plain.value;
    if db.scoped.None? {
      return true, db.(plain := Some(plain));
    }
    var (o, os) := Seed(db.organizations);
    var rows := Of(db.scoped.value, o);
    var t;
    ok, t := InsertPlain(plain, rows);
    return ok, Database(os, Some(t), None);
  }

  lemma OfSplit(a: seq<Scoped>, o: Org)
    requires a != []
    ensures Of(a, o) == (if a[0].org == o then [a[0].row] else []) + Of(a[1..], o)
  {
  }

  lemma {:induction false} OfConcat(a: seq<Scoped>, b: seq<Scoped>, o: Org)
    ensures Of(a + b, o) == Of(a, o) + Of(b, o)
  {
    if a == [] {
      assert a + b == b;
    } else {
      var c, tail := a + b, a[1..];
      var x: seq<Plain> := if a[0].org == o then [a[0].row] else [];
      assert c[0] == a[0] && c[1..] == tail + b;
      OfConcat(tail, b, o);
      OfSplit(a, o);
      OfSplit(c, o);
      assert x + (Of(tail, o) + Of(b, o)) == (x + Of(tail, o)) + Of(b, o);
    }
  }

  lemma {:induction false} OfTagged(o: Org, rows: seq<Plain>)
    ensures Of(Tagged(o, rows), o) == rows
  {
    if rows != [] {
      assert Tagged(o, rows)[1..] == Tagged(o, rows[1..]);
      OfTagged(o, rows[1..]);
    }
  }

  /** Scoping and then unscoping returns the original rows, after whatever rows the chosen
      organization already had; exactly the original rows, in their order, if and only if it
      had none. */
  lemma ScopingRoundTrips(db: Database)
    requires db.plain.Some?
    ensures var o := Seed(db.organizations).0;
            ScopeDown(ScopeUp(db)).plain == Some(Of(ScopedOf(db), o) + db.plain.value)
    ensures ScopeDown(ScopeUp(db)).plain == db.plain <==> Of(ScopedOf(db), Seed(db.organizations).0) == []
    ensures ScopeDown(ScopeUp(db)).scoped == None
  {
    var rows := db.plain.value;
    var (o, os) := Seed(db.organizations);
    SeedIsStable(db.organizations);
    OfConcat(ScopedOf(db), Tagged(o, rows), o);
    OfTagged(o, rows);
    var had := Of(ScopedOf(db), o);
    assert ScopeDown(ScopeUp(db)).plain == Some([] + (had + rows));
    assert [] + (had + rows) == had + rows;
    if had + rows == rows { assert |had + rows| == |had| + |rows|; }
  }

  /** A successful upgrade leaves unique rows and nothing under the old table, so that the
      downgrade applies and succeeds. */
  lemma UpgradedRowsAreUnique(db: Database)
    requires UniqueRows(db) && ScopeUpFits(db)
    ensures UniqueRows(ScopeUp(db)) && ScopeUp(db).plain.None? && ScopeDownFits(ScopeUp(db))
  {
    if db.plain.Some? {
      var rows, o := db.plain.value, Seed(db.organizations).0;
      forall p ensures Distinct(Of(ScopedOf(db) + Tagged(o, rows), p)) {
        OfConcat(ScopedOf(db), Tagged(o, rows), p);
        if p == o {
          OfTagged(o, rows);
          AppendedDistinct(ScopedOf(db), o, rows);
        } else {
          OfOthers(o, rows, p);
        }
      }
    }
  }

  lemma {:induction false} OfOthers(o: Org, rows: seq<Plain>, p: Org)
    requires p != o
    ensures Of(Tagged(o, rows), p) == []
  {
    if rows != [] {
      assert Tagged(o, rows)[1..] == Tagged(o, rows[1..]);
      OfOthers(o, rows[1..], p);
    }
  }

  lemma {:induction false} OfMember(t: seq<Scoped>, o: Org, j: nat)
    requires j < |Of(t, o)|
    ensures HasScoped(t, o, Of(t, o)[j].code)
  {
    var skip := if t[0].org == o then 1 else 0;
    if j < skip {
      assert t[0].org == o && t[0].row.code == Of(t, o)[j].code;
    } else {
      OfMember(t[1..], o, j - skip);
      var k :| 0 <= k < |t[1..]| && t[1..][k].org == o && t[1..][k].row.code == Of(t, o)[j].code;
      assert t[k + 1] == t[1..][k];
    }
  }

  lemma AppendedDistinct(t: seq<Scoped>, o: Org, rows: seq<Plain>)
    requires Distinct(Of(t, o)) && Distinct(rows)
    requires forall k :: 0 <= k < |rows| ==> !HasScoped(t, o, rows[k].code)
    ensures Distinct(Of(t, o) + rows)
  {
    var had := Of(t, o);
    var all := had + rows;
    forall j, k | 0 <= j < k < |all| ensures all[j].code != all[k].code {
      if j < |had| <= k { OfMember(t, o, j); }
    }
  }

  /** With a row under the seed organization already, unscoping returns one row too many. */
  lemma UnscopingReturnsEarlierRows(x: Plain, y: Plain)
    requires x.code != y.code
    ensures var db := Database([Organization("o", true)], Some([y]), Some([Scoped("o", x)]));
            UniqueRows(db) && ScopeUpFits(db) && ScopeDown(ScopeUp(db)).plain == Some([x, y])
  {
    var db := Database([Organization("o", true)], Some([y]), Some([Scoped("o", x)]));
    ScopingRoundTrips(db);
    assert Of(ScopedOf(db), "o") == [x];
    forall p ensures Distinct(Of(ScopedOf(db), p)) {
      assert Of(ScopedOf(db), p) == if p == "o" then [x] else [];
    }
    assert [x] + [y] == [x, y];
  }
}

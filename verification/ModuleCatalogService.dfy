/** The catalogue service in its own form: defaults seeded row by row, scans with early
    return, next values reassigned through the branches of the mutation rule. */
module ModuleCatalogService {
  import opened Text
  import opened ModuleCatalog

  class ModuleCatalogService {
    const cfg: Config
    var licensedCodes: set<Code>
    var enabledCodes: set<Code>
    var table: map<Org, map<Code, Record>>
    var organization: Option<Org>

    function Now(): Catalog
      reads this
    {
      Catalog(licensedCodes, enabledCodes, table, organization)
    }

    /** `licensed` and `enabled` are the configured code lists, if there are any; the licensed
        ones default to the modules enabled by default, the enabled ones to the licensed. */
    constructor (cfg: Config, defaults: set<Code>, licensed: Option<seq<string>>, enabled: Option<seq<string>>)
      ensures this.cfg == cfg
      ensures var l := if licensed.None? then defaults else Selected(cfg, licensed.value);
              var e := if enabled.None? then l else Selected(cfg, enabled.value);
              Now() == Catalog(l * Codes(cfg), e * l * Codes(cfg), map[], None)
      ensures Inv(cfg, Now())
    {
      var l := if licensed.None? then defaults else Selected(cfg, licensed.value);
      var e := if enabled.None? then l else Selected(cfg, enabled.value);
      this.cfg := cfg;
      licensedCodes := set c | c in l && c in Codes(cfg);
      enabledCodes := set c | c in e && c in l && c in Codes(cfg);
      table := map[];
      organization := None;
    }

    /** `_ensure_context_defaults`; false when no organization context is active. */
    method EnsureContextDefaults() returns (ok: bool)
      modifies this`table
      ensures ok <==> WithDefaults(cfg, old(Now())).Ok?
      ensures Now() == if ok then WithDefaults(cfg, old(Now())).value else old(Now())
    {
      if !cfg.repository {
        return true;
      }
      if cfg.modules == [] {
        return true;
      }
      if organization.None? {
        return false;
      }
      var o := organization.value;
      if o in table && table[o] != map[] {
        return true;
      }
      var rows: map<Code, Record> := map[];
      for k := 0 to |cfg.modules|
        invariant rows.Keys == set j | 0 <= j < k :: cfg.modules[j].code
        invariant forall c :: c in rows ==>
                    rows[c] == Record(c in licensedCodes, c in enabledCodes && c in licensedCodes, DefaultStatus(c in licensedCodes))
      {
        var c := cfg.modules[k].code;
        rows := rows[c := Record(c in licensedCodes, c in enabledCodes && c in licensedCodes, DefaultStatus(c in licensedCodes))];
      }
      assert rows == FromSets(cfg, Now());
      table := table[o := rows];
      return true;
    }

    /** `_require_module` */
    method RequireModule(code: string) returns (found: Option<Module>)
      ensures found == FindModule(cfg, Canonical(cfg, code))
    {
      var target := Canonical(cfg, code);
      for k := 0 to |cfg.modules|
        invariant FindFrom(cfg.modules, target) == FindFrom(cfg.modules[k..], target)
      {
        if cfg.modules[k].code == target {
          return Some(cfg.modules[k]);
        }
        assert cfg.modules[k..][1..] == cfg.modules[k + 1..];
      }
      return None;
    }

    /** `_persist_state` for a module's own (canonical) code. */
    method PersistState(code: Code, r: Record)
      requires cfg.repository ==> organization.Some?
      modifies this
      ensures Now() == Persist(cfg, old(Now()), code, r)
    {
      if !cfg.repository {
        if r.licensed {
          licensedCodes := licensedCodes + {code};
        } else {
          licensedCodes := licensedCodes - {code};
        }
        if r.enabled && r.licensed {
          enabledCodes := enabledCodes + {code};
        } else {
          enabledCodes := enabledCodes - {code};
        }
        return;
      }
      var o := organization.value;
      var rows := if o in table then table[o] else map[];
      table := table[o := rows[code := Record(r.licensed, r.enabled && r.licensed, r.status)]];
    }

    /** The branches of `set_module_state` that settle the record to store. */
    method NextState(m: Module, current: Record, c: Call) returns (reply: ModuleCatalog.Result<Record>)
      ensures reply == Decide(m, current, c)
    {
      var nextLicensed := if c.licensed.None? then current.licensed else c.licensed.value;
      var nextEnabled := if c.enabled.None? then current.enabled else c.enabled.value;
      var nextStatus := current.status;
      if c.lifecycle.Some? {
        var parsed := ParseStatus(c.lifecycle.value);
        if parsed.None? {
          return Err(StatusInvalid);
        }
        nextStatus := parsed.value;
        if nextStatus != Inactive && !nextLicensed {
          return Err(NotLicensed);
        }
      }
      if c.enabled == Some(true) && !nextLicensed {
        return Err(NotLicensed);
      }
      if m.planned && (nextLicensed || nextEnabled || nextStatus != Inactive) {
        return Err(NotAvailable);
      }
      if !nextLicensed {
        nextStatus := Inactive;
        nextEnabled := false;
      } else {
        if nextStatus == Inactive {
          nextStatus := DefaultStatus(true);
        }
        if !RuntimeStatus(nextStatus) {
          if c.enabled == Some(true) {
            return Err(StatusBlocksEnablement);
          }
          nextEnabled := false;
        }
      }
      return Ok(Record(nextLicensed, nextEnabled, nextStatus));
    }

    /** `set_module_state` */
    method UpdateModuleState(c: Call) returns (reply: ModuleCatalog.Result<Record>)
      modifies this
      ensures (Now(), reply) == SetModuleState(cfg, old(Now()), c)
    {
      if !c.permitted {
        return Err(PermissionDenied);
      }
      var found := RequireModule(c.code);
      if found.None? {
        return Err(ModuleNotFound);
      }
      var m := found.value;
      var ok := EnsureContextDefaults();
      if !ok {
        return Err(NoContext);
      }
      var current := Build(cfg, Now(), m);
      var next := NextState(m, current, c);
      if next.Err? {
        return Err(next.error);
      }
      if cfg.repository && organization.None? {
        return Err(NoContext);
      }
      PersistState(m.code, next.value);
      return Ok(Build(cfg, Now(), m));
    }

    /** `_normalize_selected_module_codes`; `None` when a code names no module. */
    method NormalizeSelectedModuleCodes(codes: seq<string>) returns (selected: Option<set<Code>>)
      ensures selected == if Selected(cfg, codes) <= Codes(cfg) then Some(Selected(cfg, codes)) else None
    {
      var wanted := Selected(cfg, codes);
      var todo := wanted;
      while todo != {}
        invariant todo <= wanted && wanted - todo <= Codes(cfg)
        decreases todo
      {
        var c :| c in todo;
        if c !in Codes(cfg) {
          return None;
        }
        todo := todo - {c};
      }
      return Some(wanted);
    }

    method NoneIsPlanned(codes: set<Code>) returns (r: bool)
      ensures r <==> !exists c :: c in codes && IsPlanned(cfg, c)
    {
      var todo := codes;
      while todo != {}
        invariant todo <= codes && forall c :: c in codes && c !in todo ==> !IsPlanned(cfg, c)
        decreases todo
      {
        var c :| c in todo;
        if IsPlanned(cfg, c) {
          return false;
        }
        todo := todo - {c};
      }
      return true;
    }

    /** The upsert loop of provisioning, on one organization's rows. */
    method UpsertAll(base: map<Code, Record>, l: set<Code>, e: set<Code>) returns (rows: map<Code, Record>)
      ensures rows == base + Provisioned(cfg, l, e)
    {
      rows := base;
      ghost var p := Provisioned(cfg, l, e);
      ghost var done: set<Code> := {};
      for k := 0 to |cfg.modules|
        invariant done == set j | 0 <= j < k :: cfg.modules[j].code
        invariant rows.Keys == base.Keys + done
        invariant forall c :: c in rows ==> rows[c] == if c in done then p[c] else base[c]
      {
        var c := cfg.modules[k].code;
        var isLicensed := c in l;
        rows := rows[c := Record(isLicensed, c in e && isLicensed, DefaultStatus(isLicensed))];
        done := done + {c};
      }
      assert done == Codes(cfg);
    }

    /** `provision_organization_entitlements` */
    method ProvisionOrganizationEntitlements(permitted: bool, org: string, licensed: seq<string>,
                                             enabled: Option<seq<string>>) returns (error: Option<Error>)
      modifies this`table
      ensures error == ProvisionError(cfg, permitted, org, licensed, enabled)
      ensures Now() == Provision(cfg, old(Now()), permitted, org, licensed, enabled)
    {
      if !permitted {
        return Some(PermissionDenied);
      }
      if !cfg.repository {
        return Some(NoRepository);
      }
      var o := Strip(org);
      if o == "" {
        return Some(OrganizationRequired);
      }
      var l := NormalizeSelectedModuleCodes(licensed);
      if l.None? {
        return Some(ModuleNotFound);
      }
      var e := l;
      if enabled.Some? {
        e := NormalizeSelectedModuleCodes(enabled.value);
        if e.None? {
          return Some(ModuleNotFound);
        }
      }
      if !(e.value <= l.value) {
        return Some(EnablementRequiresLicense);
      }
      var available := NoneIsPlanned(l.value);
      if !available {
        return Some(NotAvailable);
      }
      var rows := UpsertAll(RecordsOf(Now(), o), l.value, e.value);
      table := table[o := rows];
      return None;
    }

    /** `list_enabled_modules`; `None` when the read fails for want of a context. */
    method ListEnabledModules() returns (listed: Option<seq<Module>>)
      modifies this`table
      ensures listed.Some? <==> WithDefaults(cfg, old(Now())).Ok?
      ensures listed.Some? ==> Now() == WithDefaults(cfg, old(Now())).value && listed.value == ListEnabled(cfg, Now())
    {
      var ok := EnsureContextDefaults();
      if !ok {
        return None;
      }
      var codes := EffectiveCodes(cfg, Now()).1;
      var ms: seq<Module> := [];
      for k := 0 to |cfg.modules|
        invariant ms == EnabledFrom(cfg.modules[..k], codes)
      {
        assert cfg.modules[..k + 1][..k] == cfg.modules[..k];
        if cfg.modules[k].code in codes {
          ms := ms + [cfg.modules[k]];
        }
      }
      assert cfg.modules[..|cfg.modules|] == cfg.modules;
      return Some(ms);
    }
  }
}

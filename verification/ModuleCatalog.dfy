/** The module entitlement catalogue (core/platform/modules): one mutation rule over two
    backends, a pair of in-memory code sets or a repository of records per organization,
    and the read paths that must agree. */
module ModuleCatalog {
  import opened Text

  type Code = string
  type Org = string

  datatype Status = Inactive | Active | Trial | Suspended | Expired

  datatype Module = Module(code: Code, planned: bool)

  datatype Record = Record(licensed: bool, enabled: bool, status: Status)

  /** `aliases` maps legacy module codes to current ones; `repository` tells whether an
      entitlement repository is configured. */
  datatype Config = Config(modules: seq<Module>, aliases: map<string, Code>, repository: bool)

  /** `normalize_module_code` */
  function Canonical(cfg: Config, code: string): Code {
    var k := Key(code);
    if k in cfg.aliases then cfg.aliases[k] else k
  }

  function Codes(cfg: Config): set<Code> {
    set k | 0 <= k < |cfg.modules| :: cfg.modules[k].code
  }

  /** The module list is written in canonical codes without repetition, and legacy codes
      are aliases of canonical ones. */
  ghost predicate Valid(cfg: Config) {
    && (forall k :: 0 <= k < |cfg.modules| ==> Canonical(cfg, cfg.modules[k].code) == cfg.modules[k].code)
    && (forall j, k :: 0 <= j < |cfg.modules| && 0 <= k < |cfg.modules| && cfg.modules[j].code == cfg.modules[k].code ==> j == k)
    && (forall a :: a in cfg.aliases ==> Canonical(cfg, cfg.aliases[a]) == cfg.aliases[a])
  }

  predicate RuntimeStatus(s: Status) {
    s == Active || s == Trial
  }

  function DefaultStatus(licensed: bool): Status {
    if licensed then Active else Inactive
  }

  /** `normalize_lifecycle_status` */
  function ParseStatus(value: string): Option<Status> {
    var k := Key(value);
    if k == "inactive" then Some(Inactive)
    else if k == "active" then Some(Active)
    else if k == "trial" then Some(Trial)
    else if k == "suspended" then Some(Suspended)
    else if k == "expired" then Some(Expired)
    else None
  }

  // ----- the mutation rule --------------------------------------------------------------------

  datatype Error =
    | PermissionDenied | NoContext | ModuleNotFound | StatusInvalid | NotLicensed | NotAvailable | StatusBlocksEnablement
    | OrganizationRequired | EnablementRequiresLicense | NoRepository

  datatype Result<T> = Ok(value: T) | Err(error: Error)

  datatype Call = Call(permitted: bool, code: string, licensed: Option<bool>, enabled: Option<bool>, lifecycle: Option<string>)

  function Or(o: Option<bool>, default: bool): bool {
    if o.None? then default else o.value
  }

  /** What `set_module_state` decides to store, given the module and its current record. */
  function Decide(m: Module, current: Record, c: Call): Result<Record> {
    var licensed, enabled := Or(c.licensed, current.licensed), Or(c.enabled, current.enabled);
    if c.lifecycle.Some? && ParseStatus(c.lifecycle.value).None? then Err(StatusInvalid)
    else
      var status := if c.lifecycle.None? then current.status else ParseStatus(c.lifecycle.value).value;
      if c.lifecycle.Some? && status != Inactive && !licensed then Err(NotLicensed)
      else if c.enabled == Some(true) && !licensed then Err(NotLicensed)
      else if m.planned && (licensed || enabled || status != Inactive) then Err(NotAvailable)
      else if !licensed then Ok(Record(false, false, Inactive))
      else
        var next := if status == Inactive then Active else status;
        if RuntimeStatus(next) then Ok(Record(true, enabled, next))
        else if c.enabled == Some(true) then Err(StatusBlocksEnablement)
        else Ok(Record(true, false, next))
  }

  // ----- the stored state --------------------------------------------------------------------------

  /** The two sets are the whole state of the in-memory backend and the defaults of the
      repository backend; `table` holds each organization's records by canonical code. */
  datatype Catalog = Catalog(licensed: set<Code>, enabled: set<Code>, table: map<Org, map<Code, Record>>, current: Option<Org>)

  function FromSets(cfg: Config, s: Catalog): map<Code, Record> {
    map c | c in Codes(cfg) ::
      Record(c in s.licensed, c in s.enabled && c in s.licensed, DefaultStatus(c in s.licensed))
  }

  function RecordsOf(s: Catalog, o: Org): map<Code, Record> {
    if o in s.table then s.table[o] else map[]
  }

  /** `_ensure_context_defaults`: seed the current organization if it has no records. */
  function WithDefaults(cfg: Config, s: Catalog): Result<Catalog> {
    if !cfg.repository then Ok(s)
    else if cfg.modules == [] then Ok(s)
    else if s.current.None? then Err(NoContext)
    else if RecordsOf(s, s.current.value) != map[] then Ok(s)
    else Ok(s.(table := s.table[s.current.value := FromSets(cfg, s)]))
  }

  /** `_effective_records`, once the defaults are there. */
  function Effective(cfg: Config, s: Catalog): map<Code, Record> {
    if !cfg.repository then FromSets(cfg, s)
    else if s.current.None? then map[]
    else RecordsOf(s, s.current.value)
  }

  /** `_effective_codes` */
  function EffectiveCodes(cfg: Config, s: Catalog): (set<Code>, set<Code>) {
    var r := Effective(cfg, s);
    if r == map[] then (s.licensed, s.enabled)
    else (set c | c in r && r[c].licensed :: Canonical(cfg, c),
          set c | c in r && r[c].licensed && r[c].enabled && RuntimeStatus(r[c].status) :: Canonical(cfg, c))
  }

  // ----- reading ---------------------------------------------------------------------------------------

  predicate IsEnabled(cfg: Config, s: Catalog, code: string) {
    Canonical(cfg, code) in EffectiveCodes(cfg, s).1
  }

  predicate IsLicensed(cfg: Config, s: Catalog, code: string) {
    Canonical(cfg, code) in EffectiveCodes(cfg, s).0
  }

  function FindModule(cfg: Config, code: Code): Option<Module> {
    FindFrom(cfg.modules, code)
  }

  function FindFrom(ms: seq<Module>, code: Code): Option<Module> {
    if ms == [] then None else if ms[0].code == code then Some(ms[0]) else FindFrom(ms[1..], code)
  }

  /** `_build_entitlement` */
  function Build(cfg: Config, s: Catalog, m: Module): Record {
    var r := Effective(cfg, s);
    if m.code in r then r[m.code]
    else Record(m.code in s.licensed, m.code in s.enabled, DefaultStatus(m.code in s.licensed))
  }

  function GetEntitlement(cfg: Config, s: Catalog, code: string): Option<Record> {
    var m := FindModule(cfg, Canonical(cfg, code));
    if m.None? then None else Some(Build(cfg, s, m.value))
  }

  predicate RuntimeEnabled(r: Record) {
    r.licensed && r.enabled && RuntimeStatus(r.status)
  }

  function EnabledFrom(ms: seq<Module>, codes: set<Code>): seq<Module> {
    if ms == [] then []
    else EnabledFrom(ms[..|ms| - 1], codes) + if ms[|ms| - 1].code in codes then [ms[|ms| - 1]] else []
  }

  function ListEnabled(cfg: Config, s: Catalog): seq<Module> {
    EnabledFrom(cfg.modules, EffectiveCodes(cfg, s).1)
  }

  // ----- writing ----------------------------------------------------------------------------------------

  /** `_persist_state` for a canonical code. */
  function Persist(cfg: Config, s: Catalog, code: Code, r: Record): Catalog
    requires cfg.repository ==> s.current.Some?
  {
    if !cfg.repository then
      s.(licensed := if r.licensed then s.licensed + {code} else s.licensed - {code},
         enabled := if r.enabled && r.licensed then s.enabled + {code} else s.enabled - {code})
    else
      var o := s.current.value;
      s.(table := s.table[o := RecordsOf(s, o)[code := Record(r.licensed, r.enabled && r.licensed, r.status)]])
  }

  /** `set_module_state`. A refused call may still have seeded the defaults. */
  function SetModuleState(cfg: Config, s: Catalog, c: Call): (Catalog, Result<Record>) {
    if !c.permitted then (s, Err(PermissionDenied))
    else
      var m := FindModule(cfg, Canonical(cfg, c.code));
      if m.None? then (s, Err(ModuleNotFound))
      else
        match WithDefaults(cfg, s)
        case Err(e) => (s, Err(e))
        case Ok(t) =>
          match Decide(m.value, Build(cfg, t, m.value), c)
          case Err(e) => (t, Err(e))
          case Ok(r) =>
            if cfg.repository && t.current.None? then (t, Err(NoContext))
            else
              var u := Persist(cfg, t, m.value.code, r);
              (u, Ok(Build(cfg, u, m.value)))
  }

  function Selected(cfg: Config, codes: seq<string>): set<Code> {
    set c | c in codes && Strip(c) != "" :: Canonical(cfg, c)
  }

  function Provisioned(cfg: Config, licensed: set<Code>, enabled: set<Code>): map<Code, Record> {
    map c | c in Codes(cfg) :: Record(c in licensed, c in enabled && c in licensed, DefaultStatus(c in licensed))
  }

  predicate IsPlanned(cfg: Config, c: Code) {
    FindModule(cfg, c).Some? && FindModule(cfg, c).value.planned
  }

  function ProvisionError(cfg: Config, permitted: bool, org: string, licensed: seq<string>, enabled: Option<seq<string>>): Option<Error> {
    var l := Selected(cfg, licensed);
    var e := if enabled.None? then l else Selected(cfg, enabled.value);
    if !permitted then Some(PermissionDenied)
    else if !cfg.repository then Some(NoRepository)
    else if Strip(org) == "" then Some(OrganizationRequired)
    else if !(l <= Codes(cfg)) then Some(ModuleNotFound)
    else if !(e <= Codes(cfg)) then Some(ModuleNotFound)
    else if !(e <= l) then Some(EnablementRequiresLicense)
    else if exists c :: c in l && IsPlanned(cfg, c) then Some(NotAvailable)
    else None
  }

  /** `provision_organization_entitlements`: every module gets a record. */
  function Provision(cfg: Config, s: Catalog, permitted: bool, org: string,
                     licensed: seq<string>, enabled: Option<seq<string>>): Catalog {
    if ProvisionError(cfg, permitted, org, licensed, enabled).Some? then s
    else
      var l := Selected(cfg, licensed);
      var e := if enabled.None? then l else Selected(cfg, enabled.value);
      var o := Strip(org);
      s.(table := s.table[o := RecordsOf(s, o) + Provisioned(cfg, l, e)])
  }

  datatype Event =
    | SetState(call: Call)
    | ProvisionOrg(permitted: bool, org: string, licensed: seq<string>, enabled: Option<seq<string>>)
    | Switch(to: Option<Org>)
    | Read

  function Step(cfg: Config, s: Catalog, e: Event): Catalog {
    match e
    case SetState(c) => SetModuleState(cfg, s, c).0
    case ProvisionOrg(permitted, org, licensed, enabled) => Provision(cfg, s, permitted, org, licensed, enabled)
    case Switch(org) => s.(current := org)
    case Read => match WithDefaults(cfg, s) case Ok(t) => t case Err(_) => s
  }

  // ----- what runs keep ------------------------------------------------------------------------------------

  predicate RecordOk(r: Record) {
    && (!r.licensed <==> r.status == Inactive)
    && (r.enabled ==> r.licensed && RuntimeStatus(r.status))
  }

  ghost predicate RecordsOk(cfg: Config, r: map<Code, Record>) {
    r == map[] || (r.Keys == Codes(cfg) && forall c :: c in r ==> RecordOk(r[c]))
  }

  ghost predicate Inv(cfg: Config, s: Catalog) {
    && s.enabled <= s.licensed <= Codes(cfg)
    && (forall o :: o in s.table ==> RecordsOk(cfg, s.table[o]))
  }

  lemma {:induction false} FoundModule(ms: seq<Module>, code: Code)
    ensures FindFrom(ms, code).Some? <==> exists k :: 0 <= k < |ms| && ms[k].code == code
    ensures FindFrom(ms, code).Some? ==> FindFrom(ms, code).value in ms && FindFrom(ms, code).value.code == code
  {
    if ms != [] && ms[0].code != code {
      FoundModule(ms[1..], code);
      forall k | 0 < k < |ms| ensures ms[k] == ms[1..][k - 1] {}
    }
  }

  lemma ModuleKnown(cfg: Config, code: Code)
    ensures FindModule(cfg, code).Some? <==> code in Codes(cfg)
    ensures FindModule(cfg, code).Some? ==> FindModule(cfg, code).value.code == code
  {
    FoundModule(cfg.modules, code);
  }

  lemma DecisionOk(m: Module, current: Record, c: Call)
    requires RecordOk(current) && Decide(m, current, c).Ok?
    ensures RecordOk(Decide(m, current, c).value)
  {
  }

  lemma FromSetsOk(cfg: Config, s: Catalog)
    ensures RecordsOk(cfg, FromSets(cfg, s))
  {
  }

  lemma DefaultsKeep(cfg: Config, s: Catalog)
    requires Inv(cfg, s) && WithDefaults(cfg, s).Ok?
    ensures Inv(cfg, WithDefaults(cfg, s).value)
  {
  }

  lemma BuiltOk(cfg: Config, s: Catalog, m: Module)
    requires Inv(cfg, s) && WithDefaults(cfg, s) == Ok(s) && m in cfg.modules
    ensures m.code in Effective(cfg, s) && Build(cfg, s, m) == Effective(cfg, s)[m.code] && RecordOk(Build(cfg, s, m))
  {
  }

  lemma DefaultsSettle(cfg: Config, s: Catalog)
    requires WithDefaults(cfg, s).Ok?
    ensures WithDefaults(cfg, WithDefaults(cfg, s).value) == WithDefaults(cfg, s)
  {
    if cfg.modules != [] { assert cfg.modules[0].code in FromSets(cfg, s); }
  }

  lemma PersistKeeps(cfg: Config, s: Catalog, code: Code, r: Record)
    requires Inv(cfg, s) && WithDefaults(cfg, s) == Ok(s) && code in Codes(cfg) && RecordOk(r)
    requires cfg.repository ==> s.current.Some?
    ensures Inv(cfg, Persist(cfg, s, code, r))
  {
  }

  lemma SetKeeps(cfg: Config, s: Catalog, c: Call)
    requires Inv(cfg, s)
    ensures Inv(cfg, SetModuleState(cfg, s, c).0)
  {
    var code := Canonical(cfg, c.code);
    ModuleKnown(cfg, code);
    FoundModule(cfg.modules, code);
    var m := FindModule(cfg, code);
    if c.permitted && m.Some? && WithDefaults(cfg, s).Ok? {
      var t := WithDefaults(cfg, s).value;
      DefaultsKeep(cfg, s);
      DefaultsSettle(cfg, s);
      BuiltOk(cfg, t, m.value);
      var d := Decide(m.value, Build(cfg, t, m.value), c);
      if d.Ok? && (cfg.repository ==> t.current.Some?) {
        DecisionOk(m.value, Build(cfg, t, m.value), c);
        PersistKeeps(cfg, t, code, d.value);
      }
    }
  }

  lemma ProvisionKeeps(cfg: Config, s: Catalog, permitted: bool, org: string, licensed: seq<string>, enabled: Option<seq<string>>)
    requires Inv(cfg, s)
    ensures Inv(cfg, Provision(cfg, s, permitted, org, licensed, enabled))
  {
    var o := Strip(org);
    var l := Selected(cfg, licensed);
    var e := if enabled.None? then l else Selected(cfg, enabled.value);
    var p := Provisioned(cfg, l, e);
    assert (RecordsOf(s, o) + p) == p;
  }

  lemma StepKeeps(cfg: Config, s: Catalog, e: Event)
    requires Inv(cfg, s)
    ensures Inv(cfg, Step(cfg, s, e))
  {
    match e
    case SetState(c) => SetKeeps(cfg, s, c);
    case ProvisionOrg(permitted, org, licensed, enabled) => ProvisionKeeps(cfg, s, permitted, org, licensed, enabled);
    case Switch(_) =>
    case Read => if WithDefaults(cfg, s).Ok? { DefaultsKeep(cfg, s); }
  }

  /** The state after `k` operations, starting with the configured sets and no records. */
  function After(cfg: Config, licensed: set<Code>, enabled: set<Code>, events: seq<Event>, k: nat): Catalog
    requires k <= |events|
  {
    if k == 0 then Catalog(licensed, enabled, map[], None)
    else Step(cfg, After(cfg, licensed, enabled, events, k - 1), events[k - 1])
  }

  /** From an empty repository every organization's record set stays empty or complete;
      unlicensed holds exactly when inactive, and enabled implies licensed and in active or
      trial status. */
  lemma {:induction false} CatalogueInvariant(cfg: Config, licensed: set<Code>, enabled: set<Code>, events: seq<Event>, k: nat)
    requires enabled <= licensed <= Codes(cfg) && k <= |events|
    ensures Inv(cfg, After(cfg, licensed, enabled, events, k))
  {
    if k > 0 {
      CatalogueInvariant(cfg, licensed, enabled, events, k - 1);
      StepKeeps(cfg, After(cfg, licensed, enabled, events, k - 1), events[k - 1]);
    }
  }

  // ----- the read paths agree ----------------------------------------------------------------------------------

  lemma {:induction false} EnabledMembers(ms: seq<Module>, codes: set<Code>, m: Module)
    ensures m in EnabledFrom(ms, codes) <==> m in ms && m.code in codes
  {
    if ms != [] {
      EnabledMembers(ms[..|ms| - 1], codes, m);
      assert ms == ms[..|ms| - 1] + [ms[|ms| - 1]];
    }
  }

  /** Enabled modules are listed in the order of the catalogue. */
  lemma {:induction false} ListedInOrder(ms: seq<Module>, codes: set<Code>, a: nat, b: nat) returns (i: nat, j: nat)
    requires a < b < |ms| && ms[a].code in codes && ms[b].code in codes
    ensures var listed := EnabledFrom(ms, codes); i < j < |listed| && listed[i] == ms[a] && listed[j] == ms[b]
  {
    var front := ms[..|ms| - 1];
    if b < |front| {
      i, j := ListedInOrder(front, codes, a, b);
    } else {
      EnabledMembers(front, codes, ms[a]);
      assert front[a] == ms[a];
      i :| 0 <= i < |EnabledFrom(front, codes)| && EnabledFrom(front, codes)[i] == ms[a];
      j := |EnabledFrom(front, codes)|;
    }
  }

  lemma EffectiveMembership(cfg: Config, s: Catalog, code: Code)
    requires Valid(cfg) && Inv(cfg, s) && WithDefaults(cfg, s) == Ok(s)
    ensures code in EffectiveCodes(cfg, s).1 <==> code in Effective(cfg, s) && RuntimeEnabled(Effective(cfg, s)[code])
    ensures code in EffectiveCodes(cfg, s).0 <==> code in Effective(cfg, s) && Effective(cfg, s)[code].licensed
  {
  }

  lemma EntitlementAgrees(cfg: Config, s: Catalog, code: string)
    requires Valid(cfg) && Inv(cfg, s) && WithDefaults(cfg, s) == Ok(s)
    ensures var e := GetEntitlement(cfg, s, code);
            && (IsEnabled(cfg, s, code) <==> e.Some? && RuntimeEnabled(e.value))
            && (IsLicensed(cfg, s, code) <==> e.Some? && e.value.licensed)
  {
    var c := Canonical(cfg, code);
    var found := FindModule(cfg, c);
    EffectiveMembership(cfg, s, c);
    ModuleKnown(cfg, c);
    FoundModule(cfg.modules, c);
    if found.Some? {
      BuiltOk(cfg, s, found.value);
    } else {
      EffectiveKnown(cfg, s, c);
    }
  }

  lemma EffectiveKnown(cfg: Config, s: Catalog, c: Code)
    requires Inv(cfg, s) && c !in Codes(cfg)
    ensures c !in Effective(cfg, s)
  {
  }

  lemma ListingAgrees(cfg: Config, s: Catalog, c: Code)
    requires Valid(cfg) && Inv(cfg, s) && WithDefaults(cfg, s) == Ok(s)
    ensures c in EffectiveCodes(cfg, s).1 <==> exists m :: m in ListEnabled(cfg, s) && m.code == c
  {
    var codes := EffectiveCodes(cfg, s).1;
    EffectiveMembership(cfg, s, c);
    if c in codes {
      if c !in Codes(cfg) { EffectiveKnown(cfg, s, c); }
      var k :| 0 <= k < |cfg.modules| && cfg.modules[k].code == c;
      EnabledMembers(cfg.modules, codes, cfg.modules[k]);
    }
    forall m ensures m in ListEnabled(cfg, s) ==> m.code in codes {
      EnabledMembers(cfg.modules, codes, m);
    }
  }

  /** `list_enabled_modules` lists enabled modules in the order of the catalogue. */
  lemma ListingKeepsOrder(cfg: Config, s: Catalog, a: nat, b: nat) returns (i: nat, j: nat)
    requires Valid(cfg) && a < b < |cfg.modules|
    requires IsEnabled(cfg, s, cfg.modules[a].code) && IsEnabled(cfg, s, cfg.modules[b].code)
    ensures var listed := ListEnabled(cfg, s); i < j < |listed| && listed[i] == cfg.modules[a] && listed[j] == cfg.modules[b]
  {
    var codes := EffectiveCodes(cfg, s).1;
    i, j := ListedInOrder(cfg.modules, codes, a, b);
  }

  /** After any history, once a read has gone through, `is_enabled`, `list_enabled_modules`
      and `get_entitlement(...).runtime_enabled` give the same answer for every code, legacy
      aliases and unknown codes included; so do `is_licensed` and `get_entitlement`. */
  lemma ReadPathsAgree(cfg: Config, licensed: set<Code>, enabled: set<Code>, events: seq<Event>, k: nat, s: Catalog, code: string)
    requires Valid(cfg) && enabled <= licensed <= Codes(cfg) && k <= |events|
    requires WithDefaults(cfg, After(cfg, licensed, enabled, events, k)) == Ok(s)
    ensures var e := GetEntitlement(cfg, s, code);
            && (IsEnabled(cfg, s, code) <==> e.Some? && RuntimeEnabled(e.value))
            && (IsEnabled(cfg, s, code) <==> exists m :: m in ListEnabled(cfg, s) && m.code == Canonical(cfg, code))
            && (IsLicensed(cfg, s, code) <==> e.Some? && e.value.licensed)
  {
    var t := After(cfg, licensed, enabled, events, k);
    CatalogueInvariant(cfg, licensed, enabled, events, k);
    DefaultsKeep(cfg, t);
    DefaultsSettle(cfg, t);
    EntitlementAgrees(cfg, s, code);
    ListingAgrees(cfg, s, Canonical(cfg, code));
  }

  // ----- what a change changes ------------------------------------------------------------------------------------

  lemma PersistFrames(cfg: Config, s: Catalog, m: Module, r: Record, other: Module)
    requires Inv(cfg, s) && WithDefaults(cfg, s) == Ok(s) && (cfg.repository ==> s.current.Some?)
    requires m in cfg.modules && other in cfg.modules && RecordOk(r)
    ensures var t := Persist(cfg, s, m.code, r);
            && (other.code != m.code ==> Build(cfg, t, other) == Build(cfg, s, other))
            && Build(cfg, t, m) == if cfg.repository then r else Record(r.licensed, r.enabled, DefaultStatus(r.licensed))
  {
  }

  /** What a caller may expect of an accepted record, given the one before. */
  predicate Answers(c: Call, before: Record, after: Record) {
    && after.licensed == Or(c.licensed, before.licensed)
    && (after.enabled <==> after.licensed && Or(c.enabled, before.enabled) && RuntimeStatus(after.status))
    && (c.enabled == Some(true) ==> RuntimeEnabled(after))
  }

  /** A licensed record carries the requested status; asking for inactive activates it. */
  predicate StatusAsAsked(c: Call, after: Record) {
    c.lifecycle.Some? && after.licensed ==>
      ParseStatus(c.lifecycle.value) == Some(after.status) || (ParseStatus(c.lifecycle.value) == Some(Inactive) && after.status == Active)
  }

  lemma DecisionAnswers(m: Module, before: Record, c: Call)
    requires RecordOk(before) && Decide(m, before, c).Ok?
    ensures Answers(c, before, Decide(m, before, c).value) && StatusAsAsked(c, Decide(m, before, c).value)
    ensures before.status in {Inactive, Active} && !AsksForBlocked(c) ==> Decide(m, before, c).value.status !in {Suspended, Expired}
    ensures m.planned ==> Decide(m, before, c).value == Record(false, false, Inactive)
  {
  }

  lemma CallUnfolds(cfg: Config, s: Catalog, c: Call)
    requires WithDefaults(cfg, s) == Ok(s) && (cfg.repository ==> s.current.Some?)
    ensures var (t, reply) := SetModuleState(cfg, s, c);
            var found := FindModule(cfg, Canonical(cfg, c.code));
            if !c.permitted || found.None? then t == s && reply.Err?
            else
              var d := Decide(found.value, Build(cfg, s, found.value), c);
              if d.Err? then t == s && reply.Err?
              else t == Persist(cfg, s, found.value.code, d.value) && reply == Ok(Build(cfg, t, found.value))
  {
  }

  lemma GetsBuilt(cfg: Config, s: Catalog, m: Module)
    requires Valid(cfg) && m in cfg.modules
    ensures GetEntitlement(cfg, s, m.code) == Some(Build(cfg, s, m))
  {
    FindsModule(cfg, m);
  }

  lemma SameModule(cfg: Config, m: Module, n: Module)
    requires Valid(cfg) && m in cfg.modules && n in cfg.modules && m.code == n.code
    ensures m == n
  {
  }

  lemma ChangeIsLocal(cfg: Config, s: Catalog, m: Module, c: Call, other: Module)
    requires Inv(cfg, s) && WithDefaults(cfg, s) == Ok(s) && (cfg.repository ==> s.current.Some?)
    requires m in cfg.modules && other in cfg.modules
    ensures var before := Build(cfg, s, m); var d := Decide(m, before, c);
            d.Ok? ==>
              var t := Persist(cfg, s, m.code, d.value);
              && (other.code != m.code ==> Build(cfg, t, other) == Build(cfg, s, other))
              && (cfg.repository || !AsksForBlocked(c) ==> Answers(c, before, Build(cfg, t, m)))
              && (cfg.repository ==> StatusAsAsked(c, Build(cfg, t, m)))
              && (m.planned ==> Build(cfg, t, m) == Record(false, false, Inactive))
  {
    var before := Build(cfg, s, m);
    BuiltOk(cfg, s, m);
    if !cfg.repository { assert before.status in {Inactive, Active}; }
    if Decide(m, before, c).Ok? {
      DecisionOk(m, before, c);
      DecisionAnswers(m, before, c);
      PersistFrames(cfg, s, m, Decide(m, before, c).value, other);
    }
  }

  /** A call of `set_module_state` changes at most the entitlement of the module it names,
      and that one only when it is accepted, to a record that answers the request (in memory,
      as long as the request is not for suspended or expired, which is not remembered there);
      planned modules can only be switched off. */
  lemma CallChangesOneModule(cfg: Config, s: Catalog, c: Call, m: Module)
    requires Valid(cfg) && Inv(cfg, s) && WithDefaults(cfg, s) == Ok(s) && (cfg.repository ==> s.current.Some?) && m in cfg.modules
    ensures var (t, reply) := SetModuleState(cfg, s, c);
            var before, after := GetEntitlement(cfg, s, m.code), GetEntitlement(cfg, t, m.code);
            && before.Some? && after.Some?
            && (after != before ==> reply.Ok? && m.code == Canonical(cfg, c.code))
            && (reply.Ok? && m.code == Canonical(cfg, c.code) ==>
                  reply.value == after.value
                  && (cfg.repository || !AsksForBlocked(c) ==> Answers(c, before.value, after.value))
                  && (cfg.repository ==> StatusAsAsked(c, after.value))
                  && (m.planned ==> after.value == Record(false, false, Inactive)))
  {
    ModuleKnown(cfg, Canonical(cfg, c.code));
    FoundModule(cfg.modules, Canonical(cfg, c.code));
    var t := SetModuleState(cfg, s, c).0;
    GetsBuilt(cfg, s, m);
    GetsBuilt(cfg, t, m);
    var found := FindModule(cfg, Canonical(cfg, c.code));
    CallUnfolds(cfg, s, c);
    if c.permitted && found.Some? {
      ChangeIsLocal(cfg, s, found.value, c, m);
      if m.code == found.value.code { SameModule(cfg, m, found.value); }
    }
  }

  /** Provisioning an organization takes effect: once it is the current one, exactly the
      selected modules are licensed and exactly those selected for enabling are enabled,
      whatever it had before; other organizations keep their records. */
  lemma ProvisioningTakesEffect(cfg: Config, s: Catalog, org: string, licensed: seq<string>, enabled: Option<seq<string>>, code: string)
    requires Valid(cfg) && Inv(cfg, s) && cfg.modules != [] && ProvisionError(cfg, true, org, licensed, enabled) == None
    ensures var t := Provision(cfg, s, true, org, licensed, enabled).(current := Some(Strip(org)));
            && WithDefaults(cfg, t) == Ok(t)
            && (IsLicensed(cfg, t, code) <==> Canonical(cfg, code) in Selected(cfg, licensed))
            && (IsEnabled(cfg, t, code)
                <==> Canonical(cfg, code) in Selected(cfg, if enabled.None? then licensed else enabled.value))
            && forall o :: o != Strip(org) ==> RecordsOf(t, o) == RecordsOf(s, o)
  {
    var o := Strip(org);
    var l := Selected(cfg, licensed);
    var e := if enabled.None? then l else Selected(cfg, enabled.value);
    var p := Provisioned(cfg, l, e);
    var t := Provision(cfg, s, true, org, licensed, enabled).(current := Some(o));
    ProvisionKeeps(cfg, s, true, org, licensed, enabled);
    RecordsReplaced(cfg, s, o, p);
    assert RecordsOf(t, o) == p;
    ProvisionedCodes(cfg, t, l, e, Canonical(cfg, code));
  }

  lemma RecordsReplaced(cfg: Config, s: Catalog, o: Org, p: map<Code, Record>)
    requires Inv(cfg, s) && p.Keys == Codes(cfg)
    ensures RecordsOf(s, o) + p == p
  {
  }

  lemma ProvisionedCodes(cfg: Config, t: Catalog, l: set<Code>, e: set<Code>, c: Code)
    requires Valid(cfg) && Inv(cfg, t) && cfg.repository && cfg.modules != [] && t.current.Some?
    requires e <= l <= Codes(cfg) && RecordsOf(t, t.current.value) == Provisioned(cfg, l, e)
    ensures WithDefaults(cfg, t) == Ok(t)
    ensures c in EffectiveCodes(cfg, t).0 <==> c in l
    ensures c in EffectiveCodes(cfg, t).1 <==> c in e
  {
    assert cfg.modules[0].code in Provisioned(cfg, l, e);
    EffectiveMembership(cfg, t, c);
  }

  // ----- which calls are accepted ---------------------------------------------------------------------------------

  function StatusName(st: Status): string {
    match st
    case Inactive => "inactive"
    case Active => "active"
    case Trial => "trial"
    case Suspended => "suspended"
    case Expired => "expired"
  }

  /** The call's lifecycle text, case and blanks around it aside, is the name of this status. */
  predicate Asks(c: Call, st: Status) {
    c.lifecycle.Some? && Key(c.lifecycle.value) == StatusName(st)
  }

  /** The status is asked for, or none is and the module has it already. */
  predicate AsksOrKeeps(c: Call, before: Record, st: Status) {
    Asks(c, st) || (c.lifecycle.None? && before.status == st)
  }

  predicate EndsUnlicensed(c: Call, before: Record) {
    c.licensed == Some(false) || (c.licensed.None? && !before.licensed)
  }

  predicate StaysOrTurnsEnabled(c: Call, before: Record) {
    c.enabled == Some(true) || (c.enabled.None? && before.enabled)
  }

  /** The four grounds on which a permitted call for a known module is refused: an unknown
      lifecycle; a status or enabling for a module that would be unlicensed; a planned module
      that would not be off in every respect; enabling under a status that blocks it. */
  predicate Refusable(planned: bool, c: Call, before: Record) {
    || (c.lifecycle.Some? && forall st :: !Asks(c, st))
    || (EndsUnlicensed(c, before) && (c.enabled == Some(true) || exists st :: st != Inactive && Asks(c, st)))
    || (planned && !(EndsUnlicensed(c, before) && !StaysOrTurnsEnabled(c, before) && AsksOrKeeps(c, before, Inactive)))
    || (c.enabled == Some(true) && (AsksOrKeeps(c, before, Suspended) || AsksOrKeeps(c, before, Expired)))
  }

  /** The record after an accepted call; memory knows no status of its own. */
  predicate Results(remembers: bool, c: Call, before: Record, after: Record) {
    if EndsUnlicensed(c, before) then after == Record(false, false, Inactive)
    else
      && after.licensed
      && (after.enabled <==> StaysOrTurnsEnabled(c, before) && !AsksOrKeeps(c, before, Suspended) && !AsksOrKeeps(c, before, Expired))
      && forall st :: AsksOrKeeps(c, before, st) ==> after.status == if remembers && st != Inactive then st else Active
  }

  ghost predicate IsModule(cfg: Config, code: Code, planned: bool) {
    exists k :: 0 <= k < |cfg.modules| && cfg.modules[k] == Module(code, planned)
  }

  lemma StatusNamesDiffer(a: Status, b: Status)
    ensures StatusName(a) == StatusName(b) <==> a == b
  {
    assert |StatusName(Inactive)| == 8 && |StatusName(Active)| == 6 && |StatusName(Trial)| == 5;
    assert |StatusName(Suspended)| == 9 && |StatusName(Expired)| == 7;
  }

  lemma ParsedByName(text: string, st: Status)
    ensures ParseStatus(text) == Some(st) <==> Key(text) == StatusName(st)
  {
    forall a, b ensures StatusName(a) == StatusName(b) <==> a == b { StatusNamesDiffer(a, b); }
  }

  lemma AsksParsed(c: Call)
    ensures forall st :: Asks(c, st) <==> c.lifecycle.Some? && ParseStatus(c.lifecycle.value) == Some(st)
  {
    if c.lifecycle.Some? {
      forall st ensures Asks(c, st) <==> ParseStatus(c.lifecycle.value) == Some(st) { ParsedByName(c.lifecycle.value, st); }
    }
  }

  lemma DecisionRefuses(m: Module, before: Record, c: Call)
    requires RecordOk(before)
    ensures Decide(m, before, c).Err? <==> Refusable(m.planned, c, before)
    ensures Decide(m, before, c).Ok? ==> Results(true, c, before, Decide(m, before, c).value)
  {
    AsksParsed(c);
    if c.lifecycle.Some? && ParseStatus(c.lifecycle.value).Some? {
      assert Asks(c, ParseStatus(c.lifecycle.value).value);
    }
  }

  /** From any consistent state: a permitted call of `set_module_state` for a known module is
      refused on exactly four grounds, each told from the entitlement before the call, and
      then nothing changes; otherwise the module is licensed, enabled and in the status that
      was asked for, what was not asked staying as it was. */
  lemma CallsAreJudged(cfg: Config, s: Catalog, c: Call, planned: bool)
    requires Valid(cfg) && Inv(cfg, s) && WithDefaults(cfg, s) == Ok(s) && (cfg.repository ==> s.current.Some?)
    requires c.permitted && IsModule(cfg, Canonical(cfg, c.code), planned)
    ensures var (t, reply) := SetModuleState(cfg, s, c);
            var before, after := GetEntitlement(cfg, s, c.code), GetEntitlement(cfg, t, c.code);
            && before.Some? && after.Some?
            && (reply.Err? <==> Refusable(planned, c, before.value))
            && (reply.Err? ==> t == s)
            && (reply.Ok? ==> reply.value == after.value && Results(cfg.repository, c, before.value, after.value))
            && (reply.Ok? ==> (IsLicensed(cfg, t, c.code) <==> !EndsUnlicensed(c, before.value)))
  {
    var k :| 0 <= k < |cfg.modules| && cfg.modules[k] == Module(Canonical(cfg, c.code), planned);
    var m, t := cfg.modules[k], SetModuleState(cfg, s, c).0;
    FindsModule(cfg, m);
    BuiltOk(cfg, s, m);
    DecisionRefuses(m, Build(cfg, s, m), c);
    CallUnfolds(cfg, s, c);
    if SetModuleState(cfg, s, c).1.Ok? {
      var r := Decide(m, Build(cfg, s, m), c).value;
      DecisionOk(m, Build(cfg, s, m), c);
      PersistFrames(cfg, s, m, r, m);
      MemoryForgetsStatus(cfg, s, m, c, r);
      ModuleKnown(cfg, m.code);
      PersistKeeps(cfg, s, m.code, r);
      PersistSettles(cfg, s, m.code, r);
      EntitlementAgrees(cfg, t, c.code);
    }
  }

  lemma MemoryForgetsStatus(cfg: Config, s: Catalog, m: Module, c: Call, r: Record)
    requires Results(true, c, Build(cfg, s, m), r) && RecordOk(r)
    ensures Results(cfg.repository, c, Build(cfg, s, m), if cfg.repository then r else Record(r.licensed, r.enabled, DefaultStatus(r.licensed)))
  {
  }

  lemma PersistSettles(cfg: Config, s: Catalog, code: Code, r: Record)
    requires WithDefaults(cfg, s) == Ok(s) && (cfg.repository ==> s.current.Some?)
    ensures var t := Persist(cfg, s, code, r); WithDefaults(cfg, t) == Ok(t)
  {
    if cfg.repository { assert code in RecordsOf(Persist(cfg, s, code, r), s.current.value); }
  }

  /** Licensing a module that is available always goes through, and the module is licensed
      from then on. */
  lemma LicensingTakesEffect(cfg: Config, s: Catalog, c: Call)
    requires Valid(cfg) && Inv(cfg, s) && WithDefaults(cfg, s) == Ok(s) && (cfg.repository ==> s.current.Some?)
    requires c == Call(true, c.code, Some(true), None, None) && IsModule(cfg, Canonical(cfg, c.code), false)
    ensures var (t, reply) := SetModuleState(cfg, s, c); reply.Ok? && IsLicensed(cfg, t, c.code)
  {
    CallsAreJudged(cfg, s, c, false);
  }

  /** The code names an available module, whatever its spelling. */
  ghost predicate Available(cfg: Config, code: string) {
    IsModule(cfg, Canonical(cfg, code), false)
  }

  /** Blank codes are passed over. */
  predicate Lists(cfg: Config, codes: seq<string>, c: Code) {
    exists code :: code in codes && Strip(code) != "" && Canonical(cfg, code) == c
  }

  /** Provisioning is accepted exactly when it is permitted, there is a repository, an
      organization is named, every code given names an available module, and those to be
      enabled are among those to be licensed. */
  lemma ProvisioningIsJudged(cfg: Config, permitted: bool, org: string, licensed: seq<string>, enabled: Option<seq<string>>)
    requires Valid(cfg)
    ensures ProvisionError(cfg, permitted, org, licensed, enabled).None?
       <==> && permitted && cfg.repository && Strip(org) != ""
            && (forall code :: code in licensed && Strip(code) != "" ==> Available(cfg, code))
            && (enabled.Some? ==> forall code :: code in enabled.value && Strip(code) != "" ==> Lists(cfg, licensed, Canonical(cfg, code)))
  {
    SelectedAvailable(cfg, licensed);
    if enabled.Some? { SelectedAmong(cfg, enabled.value, licensed); }
  }

  lemma SelectedAvailable(cfg: Config, codes: seq<string>)
    requires Valid(cfg)
    ensures (forall code :: code in codes && Strip(code) != "" ==> Available(cfg, code))
       <==> Selected(cfg, codes) <= Codes(cfg) && !exists c :: c in Selected(cfg, codes) && IsPlanned(cfg, c)
  {
    forall c ensures IsModule(cfg, c, false) <==> c in Codes(cfg) && !IsPlanned(cfg, c) { AvailableByCode(cfg, c); }
    forall code | code in codes && Strip(code) != "" ensures Canonical(cfg, code) in Selected(cfg, codes) {}
  }

  lemma SelectedAmong(cfg: Config, some: seq<string>, codes: seq<string>)
    ensures (forall code :: code in some && Strip(code) != "" ==> Lists(cfg, codes, Canonical(cfg, code)))
       <==> Selected(cfg, some) <= Selected(cfg, codes)
  {
    forall code | code in some && Strip(code) != "" ensures Canonical(cfg, code) in Selected(cfg, some) {}
    forall c ensures c in Selected(cfg, codes) <==> Lists(cfg, codes, c) {}
  }

  lemma AvailableByCode(cfg: Config, c: Code)
    requires Valid(cfg)
    ensures IsModule(cfg, c, false) <==> c in Codes(cfg) && !IsPlanned(cfg, c)
  {
    ModuleKnown(cfg, c);
    FoundModule(cfg.modules, c);
    if IsModule(cfg, c, false) {
      var k :| 0 <= k < |cfg.modules| && cfg.modules[k] == Module(c, false);
      FindsModule(cfg, cfg.modules[k]);
    }
  }

  // ----- the two backends ------------------------------------------------------------------------------------------

  /** Whether the call's lifecycle, if any, is one that only the repository can remember. */
  predicate AsksForBlocked(c: Call) {
    c.lifecycle.Some? && ParseStatus(c.lifecycle.value) in {Some(Suspended), Some(Expired)}
  }

  predicate Corresponds(a: Record, b: Record) {
    && a.licensed == b.licensed && a.enabled == b.enabled
    && (a.status == Inactive <==> b.status == Inactive)
    && (RuntimeStatus(a.status) <==> RuntimeStatus(b.status))
  }

  /** Same modules, one backend each. */
  predicate Twins(memory: Config, repo: Config) {
    !memory.repository && repo == memory.(repository := true)
  }

  /** The in-memory sets and the current organization's records say the same, module by module. */
  ghost predicate Similar(memory: Config, repo: Config, a: Catalog, b: Catalog) {
    && Inv(memory, a) && Inv(repo, b)
    && b.current.Some?
    && (RecordsOf(b, b.current.value) == map[] ==> a.licensed == b.licensed && a.enabled == b.enabled)
    && forall c :: c in RecordsOf(b, b.current.value) && c in Codes(memory) ==>
         Corresponds(FromSets(memory, a)[c], RecordsOf(b, b.current.value)[c])
  }

  lemma SeededSimilar(memory: Config, repo: Config, a: Catalog, b: Catalog)
    requires Twins(memory, repo) && Similar(memory, repo, a, b) && WithDefaults(repo, b).Ok?
    ensures Similar(memory, repo, a, WithDefaults(repo, b).value)
    ensures var t := WithDefaults(repo, b).value;
            forall c :: c in Codes(memory) ==>
              c in RecordsOf(t, t.current.value) && Corresponds(FromSets(memory, a)[c], RecordsOf(t, t.current.value)[c])
  {
  }

  lemma DecisionsCorrespond(m: Module, a: Record, b: Record, c: Call)
    requires Corresponds(a, b) && RecordOk(a) && RecordOk(b) && a.status in {Inactive, Active} && !AsksForBlocked(c)
    ensures match (Decide(m, a, c), Decide(m, b, c))
            case (Ok(x), Ok(y)) => Corresponds(x, y) && RecordOk(x) && x.status in {Inactive, Active, Trial}
            case (Err(x), Err(y)) => x == y
            case _ => false
  {
  }

  predicate SameReply(x: Result<Record>, y: Result<Record>) {
    match (x, y)
    case (Ok(a), Ok(b)) => Corresponds(a, b)
    case (Err(a), Err(b)) => a == b
    case _ => false
  }

  /** One call on each side: same reply, and the backends stay similar. */
  lemma CallsCorrespond(memory: Config, repo: Config, a: Catalog, b: Catalog, c: Call)
    requires Twins(memory, repo) && Similar(memory, repo, a, b) && !AsksForBlocked(c)
    ensures var (a', x), (b', y) := SetModuleState(memory, a, c), SetModuleState(repo, b, c);
            SameReply(x, y) && Similar(memory, repo, a', b')
  {
    var code := Canonical(memory, c.code);
    assert FindModule(memory, code) == FindModule(repo, code);
    var found := FindModule(memory, code);
    if c.permitted && found.Some? {
      ModuleKnown(memory, code);
      FoundModule(memory.modules, code);
      var m := found.value;
      assert WithDefaults(repo, b).Ok?;
      var t := WithDefaults(repo, b).value;
      SeededSimilar(memory, repo, a, b);
      SetKeeps(memory, a, c);
      SetKeeps(repo, b, c);
      StoredAlike(memory, repo, a, t, m, c);
    }
  }

  lemma StoredAlike(memory: Config, repo: Config, a: Catalog, t: Catalog, m: Module, c: Call)
    requires Twins(memory, repo) && Similar(memory, repo, a, t) && !AsksForBlocked(c)
    requires m in memory.modules && m.code in Codes(memory)
    requires forall k :: k in Codes(memory) ==>
               k in RecordsOf(t, t.current.value) && Corresponds(FromSets(memory, a)[k], RecordsOf(t, t.current.value)[k])
    ensures match (Decide(m, Build(memory, a, m), c), Decide(m, Build(repo, t, m), c))
            case (Ok(x), Ok(y)) =>
              var a', t' := Persist(memory, a, m.code, x), Persist(repo, t, m.code, y);
              && Corresponds(Build(memory, a', m), Build(repo, t', m))
              && RecordsOf(t', t'.current.value) != map[] && t'.current == t.current
              && forall k :: k in RecordsOf(t', t'.current.value) && k in Codes(memory) ==>
                   Corresponds(FromSets(memory, a')[k], RecordsOf(t', t'.current.value)[k])
            case (Err(x), Err(y)) => x == y
            case _ => false
  {
    FromSetsOk(memory, a);
    var r, q := Build(memory, a, m), Build(repo, t, m);
    assert r == FromSets(memory, a)[m.code] && q == RecordsOf(t, t.current.value)[m.code];
    DecisionsCorrespond(m, r, q, c);
    if Decide(m, r, c).Ok? {
      var x, y := Decide(m, r, c).value, Decide(m, q, c).value;
      DecisionOk(m, q, c);
      PersistedAlike(memory, repo, a, t, m, x, y);
    }
  }

  lemma PersistedAlike(memory: Config, repo: Config, a: Catalog, t: Catalog, m: Module, x: Record, y: Record)
    requires Twins(memory, repo) && Inv(memory, a) && t.current.Some? && m.code in Codes(memory)
    requires Corresponds(x, y) && RecordOk(x) && RecordOk(y) && x.status in {Inactive, Active, Trial}
    requires forall k :: k in Codes(memory) && k in RecordsOf(t, t.current.value) ==>
               Corresponds(FromSets(memory, a)[k], RecordsOf(t, t.current.value)[k])
    ensures var a', t' := Persist(memory, a, m.code, x), Persist(repo, t, m.code, y);
            && Corresponds(Build(memory, a', m), Build(repo, t', m))
            && RecordsOf(t', t'.current.value) != map[] && t'.current == t.current
            && forall k :: k in RecordsOf(t', t'.current.value) && k in Codes(memory) ==>
                 Corresponds(FromSets(memory, a')[k], RecordsOf(t', t'.current.value)[k])
  {
  }

  /** The state after the first `k` calls. */
  function Called(cfg: Config, s: Catalog, calls: seq<Call>, k: nat): Catalog
    requires k <= |calls|
  {
    if k == 0 then s else SetModuleState(cfg, Called(cfg, s, calls, k - 1), calls[k - 1]).0
  }

  lemma {:induction false} BackendsStaySimilar(memory: Config, repo: Config, a: Catalog, b: Catalog, calls: seq<Call>, k: nat)
    requires Twins(memory, repo) && Similar(memory, repo, a, b) && k <= |calls|
    requires forall j :: 0 <= j < |calls| ==> !AsksForBlocked(calls[j])
    ensures Similar(memory, repo, Called(memory, a, calls, k), Called(repo, b, calls, k))
  {
    if k > 0 {
      BackendsStaySimilar(memory, repo, a, b, calls, k - 1);
      CallsCorrespond(memory, repo, Called(memory, a, calls, k - 1), Called(repo, b, calls, k - 1), calls[k - 1]);
    }
  }

  /** For every sequence of `set_module_state` calls that never asks for suspended or
      expired, from the same defaults and an organization without records, the backends
      accept and reject the same calls for the same reasons and agree on the licensed and
      the runtime-enabled modules throughout. */
  lemma BackendsAreBisimilar(memory: Config, repo: Config, licensed: set<Code>, enabled: set<Code>, org: Org,
                             calls: seq<Call>, k: nat, code: string)
    requires Twins(memory, repo) && Valid(memory) && enabled <= licensed <= Codes(memory)
    requires k < |calls| && forall j :: 0 <= j < |calls| ==> !AsksForBlocked(calls[j])
    ensures var s := Catalog(licensed, enabled, map[], Some(org));
            var a, b := Called(memory, s, calls, k), Called(repo, s, calls, k);
            && SameReply(SetModuleState(memory, a, calls[k]).1, SetModuleState(repo, b, calls[k]).1)
            && WithDefaults(repo, b).Ok?
            && (IsLicensed(memory, a, code) <==> IsLicensed(repo, WithDefaults(repo, b).value, code))
            && (IsEnabled(memory, a, code) <==> IsEnabled(repo, WithDefaults(repo, b).value, code))
  {
    var s := Catalog(licensed, enabled, map[], Some(org));
    assert Codes(memory) == Codes(repo);
    assert Similar(memory, repo, s, s);
    BackendsStaySimilar(memory, repo, s, s, calls, k);
    var a, b := Called(memory, s, calls, k), Called(repo, s, calls, k);
    CallsCorrespond(memory, repo, a, b, calls[k]);
    SimilarAnswers(memory, repo, a, b, code);
  }

  lemma SimilarAnswers(memory: Config, repo: Config, a: Catalog, b: Catalog, code: string)
    requires Twins(memory, repo) && Similar(memory, repo, a, b)
    ensures WithDefaults(repo, b).Ok?
    ensures var t := WithDefaults(repo, b).value;
            Valid(memory) ==>
              && (IsLicensed(memory, a, code) <==> IsLicensed(repo, t, code))
              && (IsEnabled(memory, a, code) <==> IsEnabled(repo, t, code))
  {
    SeededSimilar(memory, repo, a, b);
    if Valid(memory) {
      var t := WithDefaults(repo, b).value;
      var c := Canonical(memory, code);
      DefaultsKeep(repo, b);
      DefaultsSettle(repo, b);
      ValidTwin(memory, repo);
      EffectiveMembership(memory, a, c);
      EffectiveMembership(repo, t, c);
      FromSetsOk(memory, a);
      assert c == Canonical(repo, code) && Codes(memory) == Codes(repo);
    }
  }

  lemma ValidTwin(memory: Config, repo: Config)
    requires Twins(memory, repo) && Valid(memory)
    ensures Valid(repo)
  {
  }

  lemma {:induction false} FindsFirst(ms: seq<Module>, m: Module)
    requires m in ms
    requires forall j, k :: 0 <= j < |ms| && 0 <= k < |ms| && ms[j].code == ms[k].code ==> j == k
    ensures FindFrom(ms, m.code) == Some(m)
  {
    var k :| 0 <= k < |ms| && ms[k] == m;
    if ms[0].code != m.code {
      assert m == ms[1..][k - 1];
      forall i, j | 0 <= i < |ms[1..]| && 0 <= j < |ms[1..]| && ms[1..][i].code == ms[1..][j].code ensures i == j {
        assert ms[i + 1].code == ms[j + 1].code;
      }
      FindsFirst(ms[1..], m);
    }
  }

  lemma FindsModule(cfg: Config, m: Module)
    requires Valid(cfg) && m in cfg.modules
    ensures Canonical(cfg, m.code) == m.code && FindModule(cfg, m.code) == Some(m) && m.code in Codes(cfg)
  {
    var k :| 0 <= k < |cfg.modules| && cfg.modules[k] == m;
    FindsFirst(cfg.modules, m);
  }

  lemma MemoryEnables(cfg: Config, s: Catalog, m: Module)
    requires Valid(cfg) && !cfg.repository && m in cfg.modules && !m.planned && m.code in s.licensed
    ensures SetModuleState(cfg, s, Call(true, m.code, None, Some(true), None)).1.Ok?
  {
    FindsModule(cfg, m);
  }

  lemma RepositoryRefuses(cfg: Config, s: Catalog, m: Module)
    requires Valid(cfg) && cfg.repository && m in cfg.modules && !m.planned
    requires s.current.Some? && m.code in RecordsOf(s, s.current.value)
    requires var r := RecordsOf(s, s.current.value)[m.code]; RecordOk(r) && r.status in {Suspended, Expired}
    ensures SetModuleState(cfg, s, Call(true, m.code, None, Some(true), None)).1 == Err(StatusBlocksEnablement)
  {
    FindsModule(cfg, m);
  }

  /** As soon as the repository holds a suspended or expired record, a plain request to enable
      that module is accepted in memory and rejected by the repository. */
  lemma BlockedRecordTellsBackendsApart(memory: Config, repo: Config, a: Catalog, b: Catalog, m: Module)
    requires Twins(memory, repo) && Valid(memory) && Inv(memory, a) && Inv(repo, b)
    requires b.current.Some? && m in memory.modules && !m.planned
    requires m.code in RecordsOf(b, b.current.value)
    requires RecordsOf(b, b.current.value)[m.code].status in {Suspended, Expired} && m.code in a.licensed
    ensures var c := Call(true, m.code, None, Some(true), None);
            SetModuleState(memory, a, c).1.Ok? && SetModuleState(repo, b, c).1 == Err(StatusBlocksEnablement)
  {
    ValidTwin(memory, repo);
    MemoryEnables(memory, a, m);
    RepositoryRefuses(repo, b, m);
  }

  /** Requests for suspended or expired are decided alike, and accepted ones store that status. */
  lemma BlockedDecisions(m: Module, a: Record, b: Record, c: Call)
    requires Corresponds(a, b) && AsksForBlocked(c)
    ensures Decide(m, a, c) == Decide(m, b, c)
    ensures Decide(m, a, c).Ok? ==>
              !m.planned && Decide(m, a, c).value.licensed && Decide(m, a, c).value.status in {Suspended, Expired}
  {
  }

  lemma BlockedCall(memory: Config, repo: Config, a: Catalog, t: Catalog, m: Module, c: Call)
    requires Twins(memory, repo) && Inv(memory, a) && AsksForBlocked(c)
    requires t.current.Some? && m in memory.modules && m.code in RecordsOf(t, t.current.value) && m.code in Codes(memory)
    requires Corresponds(FromSets(memory, a)[m.code], RecordsOf(t, t.current.value)[m.code])
    ensures var d, e := Decide(m, Build(memory, a, m), c), Decide(m, Build(repo, t, m), c);
            d == e && (d.Ok? ==>
              var a', t' := Persist(memory, a, m.code, d.value), Persist(repo, t, m.code, e.value);
              && m.code in RecordsOf(t', t.current.value) && t'.current == t.current
              && RecordsOf(t', t.current.value)[m.code].status in {Suspended, Expired}
              && !m.planned && m.code in a'.licensed
              && !Corresponds(FromSets(memory, a')[m.code], RecordsOf(t', t.current.value)[m.code]))
  {
    BlockedDecisions(m, Build(memory, a, m), Build(repo, t, m), c);
  }

  /** One call from similar states leaves similar states exactly when it is not an accepted
      request for suspended or expired; and in any case both sides accept it or refuse it for
      the same reason. */
  lemma CallKeepsBackendsAlike(memory: Config, repo: Config, a: Catalog, b: Catalog, c: Call)
    requires Twins(memory, repo) && Similar(memory, repo, a, b)
    ensures var (a', x), (b', y) := SetModuleState(memory, a, c), SetModuleState(repo, b, c);
            && (Similar(memory, repo, a', b') <==> !(AsksForBlocked(c) && y.Ok?))
            && (x.Ok? <==> y.Ok?) && (x.Err? ==> x.error == y.error)
  {
    if !AsksForBlocked(c) {
      CallsCorrespond(memory, repo, a, b, c);
    } else {
      var code := Canonical(memory, c.code);
      assert FindModule(memory, code) == FindModule(repo, code);
      var found := FindModule(memory, code);
      if c.permitted && found.Some? {
        ModuleKnown(memory, code);
        FoundModule(memory.modules, code);
        assert WithDefaults(repo, b).Ok?;
        SeededSimilar(memory, repo, a, b);
        BlockedCall(memory, repo, a, WithDefaults(repo, b).value, found.value, c);
      }
    }
  }

  lemma StartIsSimilar(memory: Config, repo: Config, s: Catalog)
    requires Twins(memory, repo) && s.enabled <= s.licensed <= Codes(memory) && s.table == map[] && s.current.Some?
    ensures Similar(memory, repo, s, s)
  {
    assert Codes(memory) == Codes(repo);
  }

  /** So the exclusion of suspended and expired is needed: from the common start, after any
      one accepted request for either of them, the next plain request to enable that module
      is accepted in memory and refused by the repository. */
  lemma BlockedStatusTellsBackendsApart(memory: Config, repo: Config, s: Catalog, c: Call, m: Module)
    requires Twins(memory, repo) && Valid(memory) && s.enabled <= s.licensed <= Codes(memory) && s.table == map[] && s.current.Some?
    requires m in memory.modules && Canonical(memory, c.code) == m.code
    ensures var enable := Call(true, m.code, None, Some(true), None);
            AsksForBlocked(c) && SetModuleState(repo, s, c).1.Ok? ==>
            && SetModuleState(memory, s, c).1.Ok?
            && SetModuleState(memory, SetModuleState(memory, s, c).0, enable).1.Ok?
            && SetModuleState(repo, SetModuleState(repo, s, c).0, enable).1 == Err(StatusBlocksEnablement)
  {
    if AsksForBlocked(c) && SetModuleState(repo, s, c).1.Ok? {
      StartIsSimilar(memory, repo, s);
      CallKeepsBackendsAlike(memory, repo, s, s, c);
      SetKeeps(memory, s, c);
      SetKeeps(repo, s, c);
      FindsModule(memory, m);
      assert FindModule(memory, m.code) == FindModule(repo, m.code);
      BlockedAfterCall(memory, repo, s, WithDefaults(repo, s).value, c, m);
      BlockedRecordTellsBackendsApart(memory, repo, SetModuleState(memory, s, c).0, SetModuleState(repo, s, c).0, m);
    }
  }

  lemma BlockedAfterCall(memory: Config, repo: Config, s: Catalog, t: Catalog, c: Call, m: Module)
    requires Twins(memory, repo) && Similar(memory, repo, s, s) && WithDefaults(repo, s) == Ok(t)
    requires m in memory.modules && m.code in Codes(memory)
    requires FindModule(memory, Canonical(memory, c.code)) == FindModule(repo, Canonical(repo, c.code)) == Some(m)
    ensures var a, b := SetModuleState(memory, s, c).0, SetModuleState(repo, s, c).0;
            AsksForBlocked(c) && SetModuleState(repo, s, c).1.Ok? ==>
            && b.current.Some? && m.code in RecordsOf(b, b.current.value) && !m.planned && m.code in a.licensed
            && RecordsOf(b, b.current.value)[m.code].status in {Suspended, Expired}
  {
    if AsksForBlocked(c) && SetModuleState(repo, s, c).1.Ok? {
      SeededSimilar(memory, repo, s, s);
      BlockedCall(memory, repo, s, t, m, c);
    }
  }
}

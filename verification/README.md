# Verified models of the platform core

Dafny models of the identity, access, governance, licensing, data-exchange and scheduling
code of the repository, with proofs about them. `dafny verify dfyconfig.toml` checks all of
it. Services whose methods change fields are classes whose methods are proved against step
functions or step relations; statements over whole runs are lemmas about sequences of such
steps, from an empty store on, with a clock that does not run backwards and fresh ids.

- **Accounts.** `Accounts` is the account machine: users with a session revision, an expiry,
  a failure counter and a lock, and persisted sessions. `AuthService` has its operations in
  their own form. `AccountRuns` and `Lockout` hold the theorems over runs: revocation is
  permanent, the redundant session guards agree, attempts are judged by what was typed and
  stored, failures are rate-limited.
- **Access.** `ScopedAccess`, `Directory`, `SessionContext` and `AccessGrants` follow a
  decision from stored grants over the built principal, the normalised and revalidated cache
  and the per-row check to the bulk filter.
- **Governance.** `SeparationOfDuties` runs bootstrap, registration, assignment and revocation
  for any role table and rule set. `Approvals` is the request machine with its audit log.
- **Licensing.** `ModuleCatalog` and `ModuleCatalogService` hold the mutation rule over two
  backends and the read paths; `EntitlementTables` the repository's rows and three migrations.
- **Scheduling.** `WorkCalendar`, `DependencyGraph`, `ForwardPass`, `BackwardPass`,
  `EarliestDates`, `ProjectFloat`, `CriticalPaths` and `Recalculation`: working-day arithmetic,
  the order of tasks with its cycle check, the two passes and what their dates mean, float, the
  critical path, and the recalculation as a whole.
- **Algorithms.** `DataExchange` (import and its dry run), `Totp` and `Base32` (RFC 6238,
  RFC 4226, RFC 4648), `Versions`, `UnitConversion`.
- `Text` models `strip`, `lower` and `upper`; `Arithmetic` keeps division behind small contracts.

Where the code does not do what one would expect of it, the code is kept and the exact
condition is proved:

- The bulk row filter compares row ids as they are, the per-row check trims them
  (`FilterRefinesPerRowCheck`; a missed row in `FilterMissesUntrimmedRow`). A dropped principal
  permits nothing, but its scope types count as unrestricted (`CacheCoherence`).
- Revoking the administrator role is never checked for separation of duties: it keeps every
  user's permissions free of conflicts if and only if the catalogued codes of the user's other
  roles are (`AdminRevocationKeepsExactly`; a whole run in `AdminRevocationCanExpose`).
- Only the repository backend remembers suspended and expired modules: a call keeps the two
  backends alike if and only if it is not an accepted request for either
  (`CallKeepsBackendsAlike`; what follows in `BlockedStatusTellsBackendsApart`).
- The payroll rename drops a legacy row that grants more than the current row beside it
  (`RenameKeepsGrantedCodes`, `RenameDropsLegacyLicense`); the repository never showed that row
  (`RenameIsInvisible`).
- The lifecycle backfill passes over rows whose status is written otherwise than it is read
  (`BackfillEstablishesStatus`, `BackfillOverlooksSpellings`), and unscoping also returns rows
  that the seed organization already had (`ScopingRoundTrips`, `UnscopingReturnsEarlierRows`).
- The backward scheduling rule takes a finish-to-start link back to the first working day from
  the given day on, so to the day itself if and only if that is a working day, and later
  otherwise; for the other link types it leads to the day itself if and only if the lag is zero,
  and to the working day before otherwise (`BackwardUndoesForward`, `BackwardRuleExamples`).
- Float can be negative. Among projects whose other links are finish-to-start, links of one
  type, lag and predecessor's duration never make it so if and only if they are finish-to-start,
  or finish-to-finish without lag, or limit the start, without lag and from a task of at most
  one day (`HarmlessExactly`). Any other link costs a chain of three tasks float: with a lag the
  limited date falls on the working day before the early one, and without one the late finish of
  a task of two days or more does (`HarmfulLinkCostsFloat`). So does a successor that actually
  ended before its link allows (`EarlyActualEndCostsFloat`).
- A project need not have a critical path. Links of one type and lag leave every project one if
  and only if they are finish-to-start with a lead of at most two days or finish-to-finish
  without lead (`OrdinaryExactly`); with any other link, start-to-start without lag included, a
  project of two tasks has none (`NoCriticalPath`).
- A preview announces a creation for every row that repeats a new code
  (`PreviewPredictsImport`, `RepeatedRowIsAnnouncedTwice`).

## Model

| member | source | states |
|---|---|---|
| AuthService.AuthService.RegisterUser | core/platform/auth/service.py:152-165 | the stored user has revision 1, no expiry, no lock, and the given flags and timeout override; nothing is stored for a refused override |
| AuthService.AuthService.Authenticate | core/platform/auth/service.py:186-333 | password and federated sign-in: an expired lock is cleared first, a running lock refuses before credentials are looked at, each wrong factor counts one failure |
| AuthService.AuthService.RegisterFailedLogin | core/platform/auth/service.py:920-940 | the counter goes up by one and a lock is set when it reaches the threshold |
| AuthService.AuthService.NextSessionExpiry | core/platform/auth/service.py:795-818 | expiry from the user's override or the configured timeout; an override outside 5..1440 is refused |
| AuthService.AuthService.CompleteSuccessfulAuthentication | core/platform/auth/service.py:876-918 | counter and lock cleared, new expiry, a persisted session with the user's revision and expiry |
| AuthService.AuthService.ChangeOwnPassword | core/platform/auth/service.py:335-351 | accepted exactly when it rotates; new revision and expiry and all persisted sessions revoked |
| AuthService.AuthService.ResetUserPassword | core/platform/auth/service.py:353-367 | the same for an administrative reset, which demands a new password |
| AuthService.AuthService.SetUserSessionPolicy | core/platform/auth/service.py:565-588 | accepted exactly for a valid override; rotates and revokes |
| AuthService.AuthService.RevokeAllUserSessions | core/platform/auth/service.py:590-611 | rotates, revokes and expires the user at that very instant |
| AuthService.AuthService.RevokeOneSession | core/platform/auth/service.py:624-650 | marks one stored session revoked, nothing else; refused without a session store |
| AuthService.AuthService.RevokeAllPersistedSessions | core/platform/auth/service.py:995-1003 | the loop marks exactly the user's unrevoked sessions and keeps earlier marks |
| AuthService.AuthService.UnlockUserAccount | core/platform/auth/service.py:464-478 | counter and lock cleared |
| AccountRuns.ReachableInv | core/platform/auth/service.py:186-1003 | in every reachable state every user and session record satisfies the bookkeeping invariant |
| AccountRuns.RotationsAreJudged | core/platform/auth/service.py:335-611 | when a password change, a reset, a session policy (5 to 1440 minutes) and a revocation of all sessions take effect, with the record they leave, its next revision and expiry, and the sessions they revoke; otherwise nothing changes |
| AccountRuns.RecordsAreSet | core/platform/auth/service.py:152-650 | what registration, unlocking, (de)activation, the second factor and revoking one session store, and when; otherwise they change nothing |
| AccountRuns.OnlyActiveAccountsWork | core/platform/auth/service.py:406-415 | a deactivated account is neither signed in to nor used; a new active one is signed in to at once |
| AccountRuns.OthersAreUntouched | core/platform/auth/service.py:112-650 | an operation about one user leaves every other user's record and sessions as they are |
| AccountRuns.SessionGuardsAgree | core/platform/auth/service.py:652-673 | a session-carrying principal validates exactly when the user is active and the session is theirs, unrevoked and unexpired; the other guards never decide |
| AccountRuns.SessionlessGuards | core/platform/auth/service.py:652-678 | without a stored session a principal validates exactly when its user is active, has this very expiry, not yet passed, and this revision |
| AccountRuns.ValidatedIsCurrent | core/platform/auth/service.py:652-742 | a validated principal carries the user's current revision and password flag, and the expiry of the session it stands for or else of the user |
| AccountRuns.LastSessionIsRemembered | core/platform/auth/service.py:876-904 | if the store keeps it, the session of the last sign-in is what a principal built without asking for one stands for |
| AccountRuns.UnrevokedSessionsAreCurrent | core/platform/auth/service.py:876-904 | every unrevoked session has its user's current revision and expires no later than the user |
| AccountRuns.RevocationIsPermanent | core/platform/auth/service.py:335-367 | after any rotation no principal built before it validates in any later state, with or without a session id |
| AccountRuns.RevokedSessionNeverValidates | core/platform/auth/service.py:624-678 | a singly revoked session id never validates again, in any principal |
| AccountRuns.SignInLastsOneTimeout | core/platform/auth/service.py:876-904 | the principal of a fresh sign-in validates until the minutes of the user's override, or else the configured time, have passed, and not from then on |
| Lockout.LockedExactlyAtThreshold | core/platform/auth/service.py:920-932 | the counter stays within the threshold and equals it exactly when a lock is set |
| Lockout.AttemptsAreJudged | core/platform/auth/service.py:205-333 | in every reachable state an attempt signs in if and only if the account exists and is active, no lock reaches beyond now, and it is federated or the password is right, with a right code where the account has a second factor; it fails if and only if only the credentials are wrong; anything else changes nothing |
| Lockout.AttemptsAreCounted | core/platform/auth/service.py:876-932 | a wrong password or code raises the counter by one, or restarts it after a lock that has run out, and locks for exactly the lock length at the threshold; a sign-in clears both |
| Lockout.RightCredentialsSignIn | core/platform/auth/service.py:205-262 | right credentials for an active account are refused only while a lock is running |
| Lockout.UnlockLetsIn | core/platform/auth/service.py:464-478 | after an unlock right credentials sign in at once |
| Lockout.FailureRateIsBounded | core/platform/auth/service.py:205-255 | without a sign-in or unlock, n attempts with wrong credentials on an active account whose lock is not running span at least floor((n-1)/T) lock lengths, over mixed attempts |
| ScopedAccess.NormalizeScopedAccess | core/platform/auth/session.py:19-49 | the nested dictionary loops compute the tight table of all normalised triples |
| ScopedAccess.NormalizationIsPointwiseUnion | core/platform/auth/session.py:19-49 | the result grants exactly the union over all raw rows whose normalised keys coincide and stores nothing empty |
| ScopedAccess.NormalizationIgnoresOrder | core/platform/auth/session.py:37-44 | rows in another order, nesting or repetition give the same table |
| ScopedAccess.NormalizationOfTables | core/platform/auth/session.py:91-107 | for any iteration order of both dictionaries the loops compute one function of the dictionaries |
| ScopedAccess.NormalizationIsIdempotent | core/platform/auth/session.py:91-107 | normalising again changes nothing although project access is folded back in |
| Directory.GetUserPermissions | core/platform/auth/query.py:21-29 | collecting ids role by role yields the codes of all permissions of all bound roles |
| Directory.GetUserRoleNames | core/platform/auth/query.py:34-42 | exactly the names of the bound roles that exist |
| Directory.BuildScopedAccess | core/platform/auth/service.py:680-697 | the grant loop of the principal, in any order, yields the normalised union of the user's grants |
| SessionContext.UserSessionContext.ActivePrincipal | core/platform/auth/session.py:177-198 | returns and leaves cached what expiry check and validation make of the cached principal |
| SessionContext.UserSessionContext.HasPermission | core/platform/auth/session.py:115-119 | the global check after revalidation |
| SessionContext.UserSessionContext.HasAnyScopeAccess | core/platform/auth/session.py:121-132 | the any-scope check after revalidation |
| SessionContext.UserSessionContext.HasScopePermission | core/platform/auth/session.py:134-145 | the per-row check after revalidation |
| SessionContext.CacheCoherence | core/platform/auth/session.py:115-198 | however stale the cache, either the principal is dropped and nothing is permitted, listed or restricted, or all five permission and scope answers are the ones computed from current roles, role permissions and grants |
| SessionContext.ServedExactly | core/platform/auth/session.py:177-198 | a cached principal with a stored session stays in use exactly while it has not expired, its user is active and the session is theirs, unrevoked and unexpired, and is then answered from scratch |
| SessionContext.ExpiredIsDropped | core/platform/auth/session.py:177-187 | with or without a validator an expired principal is dropped; without one any other is used as it is |
| SessionContext.SignedInUserIsServed | core/platform/auth/session.py:177-198 | a user who has just signed in is served for one timeout and no longer, with or without stored sessions, by the current roles and grants |
| SessionContext.RepeatedCheckIsStable | core/platform/auth/session.py:91-145 | in every reachable state a second check at the same instant leaves the context unchanged |
| SessionContext.FilterScopeRows | core/platform/authorization/engine.py:156-174 | three separate revalidating questions and a comprehension amount to one filter on one principal |
| SessionContext.FilterRefinesPerRowCheck | core/platform/authorization/engine.py:156-174 | the filter is the order-preserving subsequence passing the per-row check, if and only if no row has an untrimmed id whose trimmed form is allowed |
| SessionContext.FilterMissesUntrimmedRow | core/platform/authorization/engine.py:171-174 | a row id with a blank in front passes the per-row check and is missed by the filter |
| SessionContext.NormalizedIdsAreTrimmed | core/platform/auth/session.py:91-107 | every normalised principal has trimmed scope ids |
| AccessGrants.AccessControlService.AssignScopeGrant | core/platform/access/service.py:117-197 | all refusals in order; otherwise the grant found for the key is rewritten or one is added |
| AccessGrants.AccessControlService.RemoveScopeGrant | core/platform/access/service.py:215-255 | all refusals in order; otherwise the grant found is deleted |
| AccessGrants.AssignmentAccepted | core/platform/access/service.py:117-145 | an assignment is accepted if and only if user and scope exist, the scope type is registered, the role is one of its choices, and that role brings some permission that is not blank |
| AccessGrants.ReachableInv | core/platform/access/service.py:117-255 | at most one live grant per (type, id, user), normalised keys, exactly the permissions its role resolves to |
| AccessGrants.StoreFollowsHistory | core/platform/access/service.py:117-255 | a grant is live exactly when the last assignment that could be made or removal on its key was an assignment, with that role |
| AccessGrants.DecisionFollowsHistory | core/platform/auth/session.py:134-145 | after any history a non-admin passes the scope check exactly when it holds the code globally and has no live grant of the type, or the last role given in that scope resolves to it |
| SeparationOfDuties.FindConflicts | core/platform/auth/sod.py:17-27 | the messages of exactly the violated rules, in order |
| SeparationOfDuties.NoConflictsReported | core/platform/auth/sod.py:17-27 | nothing is reported if and only if no rule's permissions are all held |
| SeparationOfDuties.RoleAdministration.EnforceSeparationOfDuties | core/platform/auth/service.py:962-979 | admin passes; an unknown role or a conflict among the table's codes refuses |
| SeparationOfDuties.RoleAdministration.RegisterUser | core/platform/auth/service.py:149-166 | registration enforces and binds all requested roles, viewer by default, or changes nothing |
| SeparationOfDuties.RoleAdministration.AssignUserRole | core/platform/auth/service.py:369-379 | enforces held and new roles together, then binds |
| SeparationOfDuties.RoleAdministration.RevokeUserRole | core/platform/auth/service.py:381-388 | unbinds exactly that role without enforcement |
| SeparationOfDuties.AssignmentsAreJudged | core/platform/auth/service.py:369-379 | in every run, from the first bootstrap on, an assignment adds exactly that role if and only if user and role exist and the user, holding it too, would be an administrator or hold no rule's permissions in full; otherwise nothing changes |
| SeparationOfDuties.RegistrationsAreJudged | core/platform/auth/service.py:149-166 | likewise a registration: a free name, existing roles and a harmless combination of them give the user exactly these roles, just viewer when none are requested; otherwise nothing changes |
| SeparationOfDuties.RevocationsAreJudged | core/platform/auth/service.py:381-388 | in every run a revocation takes exactly that role from the user if both exist, and otherwise changes nothing |
| SeparationOfDuties.RoleAdministration.BootstrapDefaults | core/platform/auth/service.py:83-110 | adds missing permissions, roles and role permissions of the table and makes the named user an administrator |
| SeparationOfDuties.RoleAdministration.EnsureRolePermissions | core/platform/auth/service.py:835-851 | binds exactly the table's catalogued codes to the table's roles and keeps all bindings |
| SeparationOfDuties.ReachableInv | core/platform/auth/service.py:83-388 | every run that never revokes admin keeps all non-admin users free of conflicts |
| SeparationOfDuties.RevokeKeeps | core/platform/auth/service.py:381-388 | revoking any other role is safe |
| SeparationOfDuties.DutiesStaySeparated | core/platform/auth/service.py:680-742 | in such runs the permissions of any validated non-admin principal contain no rule's full set |
| SeparationOfDuties.EmptyOrBooted | core/platform/auth/service.py:83-110 | in every run the store is empty until the first bootstrap, and from then on holds the whole catalogue and all roles with all their permissions |
| SeparationOfDuties.PermissionsAreTableCodes | core/platform/auth/query.py:21-29 | from then on a user's permissions are exactly the catalogued table codes of the user's roles |
| SeparationOfDuties.AdminRevocationKeepsExactly | core/platform/auth/service.py:381-388 | in any run without an earlier one, revoking admin leaves the permissions of all non-admin users free of conflicts if and only if the catalogued table codes of the user's other roles are |
| SeparationOfDuties.AdminRevocationCanExpose | core/platform/auth/service.py:381-388 | a run of bootstrap, two checked assignments and the revocation of admin after which a non-admin user holds all permissions of a rule |
| Approvals.ApprovalService.RequestGovernedChange | core/platform/approval/service.py:40-90 | refused while a request for the entity is pending; otherwise one new pending request and one log entry |
| Approvals.ApprovalService.RejectRequest | core/platform/approval/service.py:131-156 | refusals in order; a failing reject handler leaves everything as it was |
| Approvals.ApprovalService.ApproveAndApply | core/platform/approval/service.py:158-190 | refusals in order; a missing or failing apply handler leaves everything as it was |
| Approvals.ApprovalService.RequireDecidable | core/platform/approval/service.py:192-211 | unknown, decided and self-requested requests are refused, in that order |
| Approvals.RequestsAreJudged | core/platform/approval/service.py:40-90 | in every run a request is stored, pending and in its requester's name, exactly when it is permitted and none is pending for the entity |
| Approvals.ApprovalsAreJudged | core/platform/approval/service.py:158-190 | in every run a request is approved and applied exactly when the actor is permitted and did not make it, it is pending, a handler was registered for its type, and that succeeds; otherwise nothing changes |
| Approvals.RejectionsAreJudged | core/platform/approval/service.py:131-156 | the same for rejecting, where a handler need not be registered |
| Approvals.ReachableInv | core/platform/approval/service.py:40-211 | one pending request per entity, none decided by its requester, the apply handler completed exactly once for approved requests and never for others |
| Approvals.DecisionsAreFinal | core/platform/approval/service.py:131-201 | a request keeps its identity while pending and never changes once decided |
| Approvals.AuditReplaysStatuses | core/platform/approval/service.py:218-234 | replaying the log gives every request's status at every moment |
| Approvals.EachRequestDecidedAtMostOnce | core/platform/approval/service.py:131-234 | the log holds exactly one decision for each decided request and none for others |
| ModuleCatalogService.ModuleCatalogService.constructor | core/platform/modules/service.py:54-79 | configured code lists are normalised, defaulted (licensed to the default modules, enabled to the licensed) and cut down to known and licensed codes |
| ModuleCatalogService.ModuleCatalogService.UpdateModuleState | core/platform/modules/catalog_mutation.py:17-102 | the branches of set_module_state, state and reply together |
| ModuleCatalogService.ModuleCatalogService.ProvisionOrganizationEntitlements | core/platform/modules/catalog_mutation.py:104-178 | refusals in order; otherwise the upsert loop gives every module a record |
| ModuleCatalogService.ModuleCatalogService.EnsureContextDefaults | core/platform/modules/catalog_context.py:52-71 | seeds exactly the current organization and only if it has no records |
| ModuleCatalogService.ModuleCatalogService.PersistState | core/platform/modules/catalog_context.py:14-34 | set updates in memory, one record in the repository |
| ModuleCatalogService.ModuleCatalogService.ListEnabledModules | core/platform/modules/catalog_query.py:26-28 | the modules whose code is effectively enabled, in catalogue order |
| ModuleCatalog.CatalogueInvariant | core/platform/modules/catalog_context.py:36-87 | after any operations each organization's records are none or complete, unlicensed is inactive, enabled implies licensed and active or trial |
| ModuleCatalog.ReadPathsAgree | core/platform/modules/catalog_query.py:22-60 | is_enabled, list_enabled_modules and get_entitlement agree for every code, aliases and unknown codes included; so does is_licensed |
| ModuleCatalog.ListingKeepsOrder | core/platform/modules/catalog_query.py:26-28 | enabled modules are listed in the order of the catalogue |
| ModuleCatalog.CallChangesOneModule | core/platform/modules/catalog_mutation.py:17-102 | a call changes at most the named module, only when accepted, to a record that answers the request; planned modules can only be switched off |
| ModuleCatalog.CallsAreJudged | core/platform/modules/catalog_mutation.py:17-102 | a permitted call for a known module is refused on exactly four grounds, told from its entitlement before: an unknown lifecycle, a status or enabling while it would be unlicensed, a planned module not left off in every respect, enabling under a blocking status; otherwise the entitlement is as asked and else as before |
| ModuleCatalog.LicensingTakesEffect | core/platform/modules/catalog_mutation.py:35-77 | licensing an available module goes through and the module counts as licensed |
| ModuleCatalog.ProvisioningIsJudged | core/platform/modules/catalog_mutation.py:104-142 | provisioning is accepted if and only if it is permitted, there is a repository, an organization is named, every code names an available module, and those to enable are among those to license |
| ModuleCatalog.ProvisioningTakesEffect | core/platform/modules/catalog_mutation.py:104-178 | afterwards exactly the selected modules are licensed and enabled, and other organizations keep their records |
| ModuleCatalog.BackendsAreBisimilar | core/platform/modules/catalog_mutation.py:17-102 | without suspended and expired both backends accept and refuse the same calls with the same errors and agree on licensed and enabled modules throughout |
| ModuleCatalog.CallKeepsBackendsAlike | core/platform/modules/catalog_mutation.py:17-102 | from similar states both backends accept a call or refuse it for the same reason, and stay similar if and only if it is not an accepted request for suspended or expired |
| ModuleCatalog.BlockedStatusTellsBackendsApart | core/platform/modules/catalog_mutation.py:60-102 | from the common start, after any accepted request for suspended or expired, the next plain enable is accepted in memory and refused by the repository |
| EntitlementTables.ListAllForOrganization | infra/platform/db/modules/repository.py:72-85 | the dictionary shows each code's preferred row, whatever the row order |
| EntitlementTables.UpsertForOrganization | infra/platform/db/modules/repository.py:87-110 | all rows of the code, under either spelling, become one row under the current code |
| EntitlementTables.UpsertRefinesMapUpdate | infra/platform/db/modules/repository.py:60-110 | writing through the repository is an update of the dictionary it shows, at that key only, and keeps keys unique |
| EntitlementTables.UpsertIsPersist | infra/platform/db/modules/repository.py:87-110 | when the rows represent the catalogue, upserting a record under any spelling of its module code gives rows that represent the catalogue with that record persisted under the canonical code |
| EntitlementTables.RenamePayroll | migration/versions/5c1b7d9e2a4f_rename_payroll_module_to_hr_management.py:26-53 | DELETE then UPDATE as one table function, keys unique |
| EntitlementTables.RenameKeepsKeysUnique | migration/versions/5c1b7d9e2a4f_rename_payroll_module_to_hr_management.py:26-53 | the UPDATE never collides and loses no surviving row |
| EntitlementTables.RenameIsInvisible | migration/versions/5c1b7d9e2a4f_rename_payroll_module_to_hr_management.py:26-53 | the repository shows the same records before and after, for every organization |
| EntitlementTables.RenameKeepsGrantedCodes | migration/versions/5c1b7d9e2a4f_rename_payroll_module_to_hr_management.py:26-53 | licensed and enabled codes collected from raw rows are unchanged if and only if no legacy row grants what the current row beside it does not |
| EntitlementTables.RenameRepresentsTheSame | migration/versions/5c1b7d9e2a4f_rename_payroll_module_to_hr_management.py:26-53 | the renamed rows represent the same catalogue |
| EntitlementTables.RenameDropsLegacyLicense | migration/versions/5c1b7d9e2a4f_rename_payroll_module_to_hr_management.py:31-44 | with rows under both codes, a license of the legacy row alone is lost |
| EntitlementTables.BackfillLifecycle | migration/versions/a1d3f5c7e9b2_add_module_entitlement_lifecycle_status.py:32-56 | every row gets its status recomputed in place when it is blank or inactive |
| EntitlementTables.BackfillEstablishesStatus | migration/versions/a1d3f5c7e9b2_add_module_entitlement_lifecycle_status.py:46-56 | the repository then shows a row with a status that matches its license if and only if the UPDATE did not pass over it with a contradicting status; always when the column is new; repeating changes nothing |
| EntitlementTables.BackfillShowsLicense | migration/versions/a1d3f5c7e9b2_add_module_entitlement_lifecycle_status.py:46-56 | a row with a missing, empty or inactive status is shown as exactly active when licensed and inactive when not; any other as before |
| EntitlementTables.BackfillOverlooksSpellings | migration/versions/a1d3f5c7e9b2_add_module_entitlement_lifecycle_status.py:46-56 | licensed rows with the status in capitals or a single blank stay licensed and inactive |
| EntitlementTables.ScopeUpgrade | migration/versions/f6a2c1d9b4e7_scope_module_entitlements_by_organization.py:64-116 | row-by-row inserts succeed if and only if no key is taken and append all rows under the seed organization |
| EntitlementTables.ScopeDowngrade | migration/versions/f6a2c1d9b4e7_scope_module_entitlements_by_organization.py:119-161 | row-by-row inserts of the seed organization's rows succeed if and only if no code is taken |
| EntitlementTables.SeedIsStable | migration/versions/f6a2c1d9b4e7_scope_module_entitlements_by_organization.py:26-61 | both directions choose the same seed organization |
| EntitlementTables.SeedIsFirstActive | migration/versions/f6a2c1d9b4e7_scope_module_entitlements_by_organization.py:26-61 | the seed is the first active organization by code, the first one when none is active, a new default one when there is none |
| EntitlementTables.UpgradedRowsAreUnique | migration/versions/f6a2c1d9b4e7_scope_module_entitlements_by_organization.py:64-161 | a successful upgrade leaves unique rows on which the downgrade succeeds |
| EntitlementTables.ScopingRoundTrips | migration/versions/f6a2c1d9b4e7_scope_module_entitlements_by_organization.py:26-161 | scoping then unscoping returns the original rows if and only if the seed organization had none |
| EntitlementTables.UnscopingReturnsEarlierRows | migration/versions/f6a2c1d9b4e7_scope_module_entitlements_by_organization.py:119-161 | with one row of the seed organization already there, one row too many comes back |
| DataExchange.PreviewRows | core/platform/data_exchange/service.py:225-287 | the preview loop classifies each row on its own and counts what it lists |
| DataExchange.PreviewCsv | core/platform/importing/runtime.py:49-76 | a limited preview is the prefix of the full one |
| DataExchange.PreviewOfPrefix | core/platform/importing/runtime.py:67-76 | previewing a prefix gives the prefix of the full preview |
| DataExchange.MasterDataExchange.ImportRows | core/platform/data_exchange/service.py:289-335 | the import loop as a fold over the rows, directory and summary together, write failures included |
| DataExchange.AcceptableExactly | core/platform/data_exchange/service.py:289-335 | a row gets through if and only if the directory can be read, code and name are there, the flag says yes or no and the type is known, where given |
| DataExchange.ImportStoresTheLastWord | core/platform/data_exchange/service.py:289-335 | after an import each field of an entry holds what the last row written for its code that fills the column says, as stripped text, type in capitals or flag; a field that no such row fills holds what it held before |
| DataExchange.ImportFilesWrittenCodes | core/platform/data_exchange/service.py:289-335 | the entries afterwards are those from before and the capitalised codes of the rows written |
| DataExchange.EveryRowIsCounted | core/platform/data_exchange/service.py:289-335 | created + updated + errors equals the row count |
| DataExchange.PreviewPredictsImport | core/platform/data_exchange/service.py:225-335 | if writes succeed errors are equal, exactly the distinct new codes are created, and the preview over-counts creations by the rows that repeat a new code |
| DataExchange.RepeatedRowIsAnnouncedTwice | core/platform/data_exchange/service.py:225-311 | two rows with one new code are previewed as two creations and imported as one creation and one update |
| DataExchange.ImportTouchesOnlyNamedCodes | core/platform/data_exchange/service.py:289-335 | whatever fails, no entry is lost and entries not named by an accepted row are untouched |
| Totp.TruncationStaysInside | core/platform/auth/mfa.py:26-27 | the four bytes read are inside the 20-byte digest |
| Totp.BinaryCodeIsBigEndian | core/platform/auth/mfa.py:26-27 | the code is the low 31 bits of the four bytes read as one number, most significant byte first |
| Totp.TruncationExample | core/platform/auth/mfa.py:25-29 | the digest of the example in section 5.4 of RFC 4226 gives 872921 |
| Totp.CounterCoversThirtySeconds | core/platform/auth/mfa.py:20-22 | each counter covers thirty seconds |
| Totp.SixDigitsInjective | core/platform/auth/mfa.py:28-29 | the zero-padded rendering determines the value |
| Totp.VerifyTotpCode | core/platform/auth/mfa.py:32-57 | blank secrets and codes without six digits are refused, a secret that cannot be decoded raises, otherwise the window loop decides |
| Totp.AcceptsExactlyTheWindow | core/platform/auth/mfa.py:43-51 | exactly the codes of the counters within the drift window are accepted |
| Totp.OnlyDigitsAreRead | core/platform/auth/mfa.py:40 | of a typed code the digits are read, in order, and nothing else |
| Totp.VerifiedExactly | core/platform/auth/mfa.py:32-57 | a code is accepted if and only if the secret is not blank and decodes and the digits typed are the code of a counter in the window; a negative drift counts as none |
| Totp.FreshCodesAreAccepted | core/platform/auth/mfa.py:15-57 | for every issued secret, typed in any case with blanks around it, any code generated within thirty seconds is accepted |
| Base32.SecretRoundTrips | core/platform/auth/mfa.py:15-17 | stripping and restoring the padding decodes to the original bytes, for every length |
| Base32.TypedSecretDecodes | core/platform/auth/mfa.py:54-57 | so does a secret typed in another case or with blanks around it |
| Base32.DecodesExactly | core/platform/auth/mfa.py:54-57 | a secret typed without padding decodes if and only if it consists of the alphabet and its last group has a length that whole bytes leave |
| Base32.EncodingExample | core/platform/auth/mfa.py:15-17 | a test vector of section 10 of RFC 4648 |
| Versions.ParseInvertsRendering | infra/platform/update.py:38-42 | parsing the dotted rendering of any non-empty list of naturals recovers it |
| Versions.AnyTextIsRead | infra/platform/update.py:38-42 | whatever stands before, between and after its runs of digits, a text is read as their numbers in order, and as zero without any |
| Versions.NewerComparesExtensions | infra/platform/update.py:45-51 | padding then comparing tuples is comparing the infinitely zero-extended lists |
| Versions.NewerIsStrictWeakOrder | infra/platform/update.py:45-51 | irreflexive, asymmetric, transitive, with transitive incomparability, across all lengths |
| Versions.IncomparableMeansEqual | infra/platform/update.py:45-51 | neither is newer if and only if the extensions are equal |
| Versions.RenderedVersionsCompare | infra/platform/update.py:38-51 | rendered versions compare as their lists and trailing zeros do not matter |
| UnitConversion.ConversionIsPathIndependent | core/modules/inventory_procurement/support.py:195-230 | going through a third unit makes no difference |
| UnitConversion.ConversionRoundTrips | core/modules/inventory_procurement/support.py:219-230 | converting there and back restores the quantity |
| UnitConversion.RatiosCountStockUnits | core/modules/inventory_procurement/support.py:170-230 | a quantity in order or issue units is that quantity times the configured ratio in stock units |
| UnitConversion.CostsAreSharedOut | core/modules/inventory_procurement/support.py:233-241 | the cost of an order or issue unit is divided by its ratio, and refused when negative |
| UnitConversion.NewItemsAreWellFormed | core/modules/inventory_procurement/services/item_master/service.py:172-205 | every item that is created has normalised units, each the stock unit or with a positive ratio |
| UnitConversion.ConversionSucceedsForOwnUnits | core/modules/inventory_procurement/support.py:129-230 | a conversion succeeds if and only if both texts spell measured units of the item; for created items, if and only if both spell one of its three units in any case, blanks allowed |
| UnitConversion.ValueIsConserved | core/modules/inventory_procurement/support.py:219-241 | stock quantity times stock unit cost equals original quantity times original unit cost |
| WorkCalendar.AddWorkingDays | core/modules/project_management/services/work_calendar/engine.py:30-58 | the day loops compute the n-th working day on or before, for any calendar |
| WorkCalendar.WorkingDaysBetween | core/modules/project_management/services/work_calendar/engine.py:60-69 | counts the working days of the stretch, both ends included |
| WorkCalendar.AddedDaysAreCounted | core/modules/project_management/services/work_calendar/engine.py:38-69 | the stretch up to the day reached by adding n holds exactly n working days and ends on one |
| WorkCalendar.CountBack | core/modules/project_management/services/work_calendar/engine.py:38-58 | n days on and m days back return to a working start if and only if m is n - 1 |
| WorkCalendar.BackwardUndoesForward | core/modules/project_management/services/scheduling/passes.py:80-92 | from any day, working or not: a finish-to-start link leads back to the first working day from it on, another link to the day itself without lag and to the working day before it otherwise; so back to the day if and only if it is a working day, or the lag is zero |
| WorkCalendar.BackwardRuleExamples | core/modules/project_management/services/scheduling/passes.py:80-92 | a finish on a Saturday comes back as Monday, a start on Tuesday with a lag of one day as Monday |
| WorkCalendar.WorkingDaysRecur | core/modules/project_management/services/work_calendar/engine.py:23-28 | with any holidays, working days recur within some distance if and only if some weekday is a working one; the distance given is then enough |
| WorkCalendar.DaysOffAreSkipped | core/modules/project_management/services/work_calendar/engine.py:23-69 | moving by working days ends on no holiday and no weekday off, and the working days counted are the days that are neither |
| DependencyGraph.PopLeast | core/modules/project_management/services/scheduling/graph.py:38-40 | the entry popped is the least of the heap by priority, name and id |
| DependencyGraph.TextLessIsLexicographic | core/modules/project_management/services/scheduling/graph.py:28-40 | names and ids compare at the first place where they differ, a beginning coming first |
| DependencyGraph.UrgentTasksGoFirst | core/modules/project_management/services/scheduling/graph.py:28-53 | no task that is ready when another is taken has a smaller priority number, nor an earlier name at the same number, nor an earlier id at the same name |
| DependencyGraph.FilteredMembers | core/modules/project_management/services/scheduling/graph.py:15-19 | the dependencies kept are exactly those between tasks of the project |
| DependencyGraph.BuildProjectDependencyGraph | core/modules/project_management/services/scheduling/graph.py:10-67 | reports a cycle if and only if there is one; otherwise all tasks once, after their predecessors, the least ready one always first |
| DependencyGraph.OrderIsCanonical | core/modules/project_management/services/scheduling/graph.py:28-53 | the order does not depend on how the dependencies are listed or repeated |
| DependencyGraph.GreedyIsTopological | core/modules/project_management/services/scheduling/graph.py:37-53 | taking ready tasks in turn puts every predecessor before its successors and no task twice |
| ForwardPass.DateTask | core/modules/project_management/services/scheduling/engine.py:112-280 | the milestone and duration variants and the actual dates, against one function |
| ForwardPass.RunForwardPass | core/modules/project_management/services/scheduling/passes.py:18-39 | one pass in task order makes every task's dates follow from its predecessors' final dates; the finish is the latest one |
| ForwardPass.DatedWhenAnchored | core/modules/project_management/services/scheduling/passes.py:34-36 | some task gets a finish date if and only if some task has a start date, an actual start or an actual end |
| ForwardPass.ScheduleProject | core/modules/project_management/services/scheduling/engine.py:51-83 | no tasks: the empty schedule; refused for a cycle if and only if there is one; else refused if and only if no task has a date of its own; else dates that solve all tasks and their latest finish |
| ForwardPass.ScheduleIsUnique | core/modules/project_management/services/scheduling/passes.py:18-39 | without cycles there is only one such schedule |
| ForwardPass.LinksAreRespected | core/modules/project_management/services/scheduling/engine.py:129-240 | all four link types are respected by every task without an actual end |
| EarliestDates.StartIsTheLatestDemand | core/modules/project_management/services/scheduling/engine.py:129-240 | a task without actual dates starts exactly on the latest day that a link from a dated predecessor demands, whatever its planned start, and as planned when there is no such link |
| EarliestDates.StartForFinish | core/modules/project_management/services/scheduling/engine.py:205-225 | for links that bound the finish: starting on a working day, a task reaches the bound if and only if it starts no earlier than counting back its duration allows |
| EarliestDates.ScheduleIsEarliest | core/modules/project_management/services/scheduling/engine.py:112-280 | without cycles the schedule suits all links, the planned starts of tasks that no link presses, and the actual dates; all dates that do are for the same tasks and nowhere earlier |
| EarliestDates.PlannedStartsOfLinkedTasksDoNotMatter | core/modules/project_management/services/scheduling/engine.py:231-240 | projects that differ only in planned starts of tasks to which a link leads from a dated predecessor have the same schedule |
| BackwardPass.RunBackwardPass | core/modules/project_management/services/scheduling/passes.py:40-112 | the tasks without successors first and then all in reversed order: every task's late dates follow from its successors' final late dates |
| EarliestDates.LateDatesAreTheTightestLimits | core/modules/project_management/services/scheduling/passes.py:40-112 | without successors a task may finish with the project; else its late finish is the earliest of the limits on it or, without any, its late start the earliest of the limits on that; unlimited, it keeps its early dates |
| Recalculation.RecalculateProjectSchedule | core/modules/project_management/services/scheduling/engine.py:51-110 | both passes together, with the outcomes of the forward half, and the early starts written back into the tasks without an actual start |
| Recalculation.RecalculatingAgainChangesNothing | core/modules/project_management/services/scheduling/results.py:21-32 | recalculating the written project gives the same outcome, dates and tasks again |
| Recalculation.WrittenDatesStand | core/modules/project_management/services/scheduling/results.py:27-30 | with all links removed from the written project, a task without an actual start keeps the dates it was given |
| BackwardPass.CriticalLinkFloat | core/modules/project_management/services/scheduling/passes.py:80-92 | on a tight link to a successor without float, the limit is no earlier than the date it comes from if and only if the link is finish-to-start or has no lag |
| ProjectFloat.NoNegativeFloat | core/modules/project_management/services/scheduling/passes.py:40-112 | no task starts or ends after its late dates, if every link is harmless or a limit on a start that is ignored beside a limit on the finish, and every task with an actual end kept its incoming links and its duration |
| ProjectFloat.HarmlessExactly | core/modules/project_management/services/scheduling/passes.py:73-107 | links of a type, lag and predecessor's duration never make float negative if and only if they are finish-to-start, finish-to-finish without lag, or limit the start, without lag and from a task of at most one day |
| ProjectFloat.HarmfulLinkCostsFloat | core/modules/project_management/services/scheduling/passes.py:73-107 | for every other link a project of three tasks in which it makes float negative, and by how much |
| ProjectFloat.EarlyActualEndCostsFloat | core/modules/project_management/services/scheduling/passes.py:73-100 | for every working day and earlier actual end of a successor a project with negative float although its link is finish-to-start |
| ProjectFloat.StartLimitedFinishIsShort | core/modules/project_management/services/scheduling/passes.py:101-107 | in any project, limited on its start alone, a task of two days or more gets a late finish one working day before its duration is over |
| CriticalPaths.CriticalPathExists | core/modules/project_management/services/scheduling/results.py:32-41 | with ordinary links, and actual ends that keep the incoming links and the duration, a chain of linked critical tasks leads from one whose start no link gave it, but a date of its own, to one without successors that ends the project |
| CriticalPaths.FloatIsRoomToMove | core/modules/project_management/services/scheduling/results.py:32-39 | from a working early start, the float is the number of working days by which the start can move |
| CriticalPaths.OrdinaryExactly | core/modules/project_management/services/scheduling/results.py:32-41 | links of a type and lag leave every project a critical path if and only if they are finish-to-start with a lead of at most two days or finish-to-finish without lead |
| CriticalPaths.NoCriticalPath | core/modules/project_management/services/scheduling/results.py:32-41 | for every other link a project of two tasks without a critical path |

## Left out

- Case mapping beyond ASCII and non-ASCII digits: `lower`, `upper`, `isdigit` and `\d` are modelled on ASCII text; `strip` on Python's whitespace table.
- AuthService.AuthService.RegisterUser: models what registration does to the fields of the account machine; the checks of username, e-mail, password, identity and roles before it are refusals that change nothing (the roles are modelled in SeparationOfDuties).
- Looking users up by name or federated identity: an attempt carries the account it resolved to. Validators for passwords, e-mail addresses and identities are booleans.
- Password hashing, HMAC and the database session: passwords are booleans, the digest is a function of the counter, repositories are maps and sets with unique keys; optimistic-lock versions are not modelled.
- Permission guards of the administrative operations: an attempt that a guard refuses changes nothing, so runs in which every guard passes cover all runs.
- Several clock readings within one operation: one reading per operation.
- `_refresh_current_session_if_user`, which rebuilds the caller's own cached principal: revocation is stated for principals built before the step.
- The fallback of `build_principal` on project memberships when no grant repository is configured, and untrimmed session ids.
- Fields without influence on these properties: names, e-mail, device labels, audit details, timestamps of updates.
- SeparationOfDuties.ReachableInv: assumes that no role of the table has a blank name and that the administrator role is in the table, as the shipped table has it; bootstrap is given an administrator password.
- SeparationOfDuties.AssignmentsAreJudged: assumes that every code of the role table is in the permission catalogue; so does SeparationOfDuties.RegistrationsAreJudged.
- ModuleCatalog.ReadPathsAgree: assumes that the module list is in canonical codes without repetition and aliases lead to canonical codes, as the shipped tables do.
- ModuleCatalog.BackendsAreBisimilar: compares the backends for one organization at a time, with the same configured sets.
- EntitlementTables.UpsertRefinesMapUpdate: has the one legacy alias of the repository and stored codes that are already normalised.
- EntitlementTables.ScopeUpgrade: takes the organizations in organization_code order and the update time as an opaque value.
- Reverting the payroll rename and the lifecycle column: mirror images with nothing further to preserve.
- AccessGrants.ReachableInv: takes the registered role policies as fixed; replacing a policy later leaves grants with the permissions their role resolved to before.
- Approval handlers that change requests themselves, and failures after a handler has completed: a handler either completes or leaves everything as it was.
- Messages of import rows, the renaming of payload fields on the way to the services, and what makes a directory write fail: writes have an arbitrary outcome per row.
- Totp.VerifyTotpCode: time is a real number, so rounding of timestamps is not modelled.
- UnitConversion.ValueIsConserved: over the reals, and for items whose stock unit is stored normalised, as items are created.
- WorkCalendar.AddWorkingDays: needs a bound on the distance between working days, which every calendar with a working weekday has; without one the code does not end.
- ProjectFloat.NoNegativeFloat: its conditions are exact for each kind of link (`HarmlessExactly`), not for each single project: a project with other links may still have enough slack.
- Deadlines, lateness and resource levelling.
- Unlisted or pass-through parts: `provision_organization`, the module runtime wrapper, registries, exports, documents, status transition tables, user interface, updater downloads and diagnostics.

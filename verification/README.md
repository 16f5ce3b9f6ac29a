# Verification of the Lore access services

A Dafny model of the two parts of this repository that carry state machines, with proofs of what they promise.

**The control plane** (`arc-lore-auth`) keeps users, resources, grants and config in four tables, mints tokens stamped
with the subject's token version, refuses tokens whose stamp is stale, decides what a token may carry, serves the JSON
API and the registry RPCs, and hands login tokens over through short-lived sessions. **The web tier**
(`ArcLoreWeb`) limits logins and form posts with token buckets, caches exchanged tokens, resolves a commit's files in a
bounded worker pool, numbers diff lines, and prints and parses ids and addresses.

How the model is laid out:

- `GoStrings` has the string and ordering functions of Go that the services use. `ResourceIds` is the resource-id gate.
- `Tables` has the tables as values and each statement as a function; the schema's keys, CHECK and cascades are part of
  those functions. `StoreModule.Store` is the store with its fields, updated in place, each method proved equal to its
  statement.
- `Service` mints and verifies. `ControlPlane` has every handler as one step on the tables and runs as lists of steps.
  `Server` performs the handlers on the store statement by statement, each proved equal to its step.
- `ControlInvariants`, `UserRows`, `Revocation`, `Recreation`, `Privileges`, `Registry`, `Permissions`, `Gates` and
  `Outcomes` prove what steps and runs keep, and what each answer means. `Interleaved` takes mints and last-admin guards
  apart into their store calls. `ExampleRun` sets the stage for the counterexamples. `CachedViews` puts the cache beside
  the exchange.
- `Sessions` with `Handshake`, `TokenBucket` with `Limiters`, `AuthzCache`, `WorkerPool` with `CommitDiff` and
  `ResolvedDiffs`, `DiffView` and `Encoding` stand alone.

Choices that hold throughout: a token is the record of its claims; password hashes, whether a password matches, and
session codes are parameters; token versions are unbounded; bucket levels and times are reals; a handler, and a mint,
is one step. `dafny verify dfyconfig.toml` checks everything.

## Results to read first

- Revocation, over runs that do not delete the subject: `Revocation.RevocationIsExact`, `Revocation.RevokedForever`,
  `Revocation.AcceptedTokensAreFresh`. With the subject deleted and created again all three are false, because the new
  row counts its version from 0: `Recreation.DeletionConditionIsNeeded` is one run of three calls that refutes them, and
  `Recreation.NoTokenIsRevokedForGood` finds such calls from every reachable state. What each comes to over all runs is
  `Recreation.RevocationHoldsIff`, `Recreation.StillRefusedIff` with `Recreation.RefusedForGoodIff`, and
  `Recreation.FreshnessHoldsIff`.
- Who can change what, over every run: `ControlInvariants.ReachableStates`, `ControlInvariants.SetupAtMostOnce`,
  `Privileges.PromotionHasAnEntitledStep`, `Privileges.GrantHasAnEntitledStep`, `Registry.DisappearanceHasAnEntitledStep`.
- Who gets in: `Gates.AdminGateIff`, `Gates.RevokedTokenDoesNothing`, `Gates.TokensGoBackToCredentials`,
  `Permissions.CheckOnTheTables`, and in `Outcomes` which request gets which answer.
- Login sessions: `Handshake.SessionStandsIff`, `Handshake.DeliversIff`, `Sessions.DeliveredAtMostOnce`,
  `Sessions.SweepIsInvisible`.
- Limiters: `Limiters.TrimmingInvisibleIff` (the rate limiter's forgetting is invisible if and only if a whole burst
  refills within the cut-off), `Limiters.LimitersAgree`, `Limiters.ThrottleWindowBound`.
- Cache: `AuthzCache.TokensComeFromTheirOwnExchange`, `AuthzCache.PruneInvisibleIff`,
  `CachedViews.HitAgreesWithExchangeIff`.
- Between the store calls of one handler: `Interleaved.FreshApartIff`, `Interleaved.GuardsApartKeepAnAdminIff`, each with
  a run in which the one-step property fails.
- Worker pool: `WorkerPool.NeverStuck`, `WorkerPool.EveryScheduleEnds`, `WorkerPool.EveryScheduleGivesTheSequentialAnswer`,
  `ResolvedDiffs.EveryScheduleShowsTheDiffs`.

Where the code and its comments differ the model follows the code. The comment on DeleteResource
(arc-lore-auth/rebac.go:141-143) calls a repeat idempotent. It is for an admin, but an owner's second delete is refused,
because the first removed the grant that entitled it: `Registry.RepeatedDelete` says exactly when, and
`Registry.SecondDeleteIsRefused` is a run from empty tables in which it happens. The comment on the cache key
(ArcLoreWeb/internal/lore/exchange.go:286-294) says that changed grants yield a new key, so that no stale token can be
served. The key is the identity token, which a grant change leaves as it is: `CachedViews.HitAgreesWithExchangeIff`
says when the cache agrees with the exchange, `CachedViews.RemovedGrantIsStillCached` shows it disagree, and
`AuthzCache.ServedUntilTheSkew` says for how long.

## Model

| member | source | states |
|---|---|---|
| StoreModule.Store.AddUser | arc-lore-auth/store.go:135-161 | inserts one valid, absent user at version 0; every refusal leaves the tables as they were |
| StoreModule.Store.SetPassword | arc-lore-auth/store.go:221-243 | replaces the hash and raises the token version of exactly one existing row, or changes nothing |
| StoreModule.Store.SetAdmin | arc-lore-auth/store.go:582-608 | sets the flag and raises the token version of exactly one existing row, or changes nothing |
| StoreModule.Store.DeleteUser | arc-lore-auth/store.go:247-265 | removes one user with the user's grants, or reports it missing |
| StoreModule.Store.CreateFirstAdmin | arc-lore-auth/store.go:340-390 | creates an admin and closes registration only while the user table is empty |
| StoreModule.Store.UpsertResource | arc-lore-auth/store.go:399-422 | sets the name and keeps the created time of a row already there |
| StoreModule.Store.DeleteResource | arc-lore-auth/store.go:428-437 | removes the resource with its grants; an absent one is no error |
| StoreModule.Store.AddGrant | arc-lore-auth/store.go:442-463 | adds one row, ignores a repeated or unchecked one, refuses one whose parents are missing |
| StoreModule.Store.GrantOwner | arc-lore-auth/store.go:468-475 | grants in order and stops at the first error, keeping what went before it |
| StoreModule.Store.RemoveGrant | arc-lore-auth/store.go:567-578 | removes exactly the normalized row; an absent one is no error |
| StoreModule.Store.SetRegistrationOpen | arc-lore-auth/store.go:663-669 | writes the one registration key |
| Tables.SwitchDecides | arc-lore-auth/store.go:615-669 | registration reads as open exactly as it was last set, and setting it touches no other table |
| Tables.NormalForms | arc-lore-auth/users.go:164-166 | a normal form is trimmed, holds no ASCII capital and is its own normal form |
| Tables.CaseDoesNotMatter | arc-lore-auth/users.go:164-166 | names that differ only in ASCII case are one user's |
| Outcomes.UsernameRules | arc-lore-auth/users.go:164-178 | valid names are one to 64 small letters, digits, dots, underscores and dashes after normalizing; an empty one has its own error |
| Outcomes.UpsertOutcome | arc-lore-auth/store.go:399-422 | a resource is set under its trimmed id, keeping the created time of one that stands there and every other row |
| Outcomes.AddGrantErrors | arc-lore-auth/store.go:442-463 | which error a grant gives: the first blank field, or a missing parent of a new checked row |
| StoreModule.Store.GrantsFor | arc-lore-auth/store.go:512-540 | the scan of the ordered rows gives, for every granted id, its permissions in order |
| StoreModule.GroupingRecoversGrants | arc-lore-auth/store.go:512-540 | appending each ordered row to its resource's list loses and mixes nothing: the result is the relation the grants table holds |
| Tables.UserStatementsKeepSchema | arc-lore-auth/migrations/0001_init.sql:3-29 | every statement on users keeps the keys valid and every grant's parents present |
| Tables.ResourceStatementsKeepSchema | arc-lore-auth/migrations/0003_grants_permission_check.sql:10-16 | every statement on resources and grants keeps parents present and permissions within the CHECK |
| Tables.DeleteUserRemovesExactlyTheDependents | arc-lore-auth/store.go:247-265 | the user's grants go, and everyone else's rows and grants, and all resources, stay as they were |
| Tables.DeleteResourceRemovesExactlyTheDependents | arc-lore-auth/store.go:428-437 | nobody keeps a permission on the resource and every permission on any other resource stays |
| Service.ComputeEffectiveResources | arc-lore-auth/perms.go:43-92 | collecting, sorting and appending computes the view the next four rows characterize |
| Service.CollectKeys | arc-lore-auth/perms.go:78-81 | whatever order the map is ranged over in, each key is collected once |
| Service.NonAdminAllowsIffGranted | arc-lore-auth/perms.go:43-92 | a non-admin's view allows an id and permission if and only if that grant row exists |
| Service.NonAdminEntriesAreTheGrantRows | arc-lore-auth/perms.go:43-92 | the same for all pairs at once, with ids strictly increasing and each permission list non-empty, sorted and without repeats |
| Service.AdminEntriesAreEveryResource | arc-lore-auth/perms.go:43-92 | an admin's view is one full entry for each resource in increasing order, and then the wildcard |
| Service.UnknownSubjectGetsNothing | arc-lore-auth/service.go:39-69 | no view, and no token, exactly for a subject without a row |
| Service.MintedTokenVerifies | arc-lore-auth/service.go:39-98 | what is minted is accepted while the tables stand, until exactly its expiry, which is reported consistently in seconds and milliseconds |
| Service.WildcardMarksAdmins | arc-lore-auth/service.go:39-69 | with canonical resource rows, the wildcard is in a view exactly when its subject is an admin |
| Gates.MintedClaims | arc-lore-auth/mint.go:67-112 | what a minted token says of its subject, name, version and view, and that its expiry is the last whole second within the TTL |
| Gates.AcceptedIff | arc-lore-auth/service.go:82-98 | accepted exactly while unexpired, from this issuer, for this audience and at the standing row's version; each refusal tells what failed first |
| ResourceIds.NormalizeIsIdempotent | arc-lore-auth/api.go:788-800 | the canonical ids are exactly the fixed points of normalization, and normalizing twice is normalizing once |
| Outcomes.NormalizesExactly | arc-lore-auth/api.go:788-800 | 32 hex digits in any case and padding, with or without the prefix, are accepted and nothing else is |
| ControlInvariants.GrantOwnerAdds | arc-lore-auth/store.go:468-475 | with both parents present the loop of three grants lands all three and nothing else |
| ControlInvariants.RegisterResourceRegisters | arc-lore-auth/rebac.go:82-105 | a known caller with a canonical id cannot fail part-way: the row keeps its first created time and the caller ends with the owner set |
| ControlInvariants.StepKeepsInv | arc-lore-auth/api.go:140-163 | every handler keeps: rows reference rows, ids are canonical, some user is an admin once there are users, registration is open only with users |
| ControlInvariants.StepKeepsUsers | arc-lore-auth/api.go:631-667 | no call empties the user table |
| ControlInvariants.RunKeepsInv | arc-lore-auth/api.go:140-163 | the same over every run from any state that satisfies it |
| ControlInvariants.ReachableStates | arc-lore-auth/api.go:631-750 | from empty tables, in every reachable state an admin exists if any user does, grants name existing users and resources, registration needs users |
| ControlInvariants.SetupAtMostOnce | arc-lore-auth/api.go:275-319 | in no run from empty tables does setup take effect twice, whatever is deleted in between |
| ControlInvariants.SetupAnswersCreatedOnlyWhenItTakesEffect | arc-lore-auth/api.go:275-319 | a 201 from setup means the user table was empty before and holds its admin after |
| ControlInvariants.DeleteKeepsInv | arc-lore-auth/api.go:631-667 | the count-then-delete guard is enough: no delete leaves users without an admin |
| ControlInvariants.SetAdminKeepsInv | arc-lore-auth/api.go:704-750 | the count-then-demote guard is enough: no demotion leaves users without an admin |
| UserRows.StepOnRow | arc-lore-auth/store.go:221-243 | over every call, a surviving row's version moves by one exactly on a successful password or role change, its flag and hash only then, and only a user deletion removes a row |
| Revocation.RowAfterRun | arc-lore-auth/service.go:82-98 | over a run that does not delete the user, the version has risen by exactly the number of successful password and role changes |
| Revocation.RevocationIsExact | arc-lore-auth/service.go:82-98 | over every run that does not delete the subject, an unexpired minted token is accepted if and only if no password or role change of the subject succeeded, and is otherwise refused as revoked |
| Revocation.RevokedForever | arc-lore-auth/service.go:82-98 | over every run that does not delete the subject, a token refused as revoked part-way is refused at the end |
| Revocation.AcceptedTokensAreFresh | arc-lore-auth/service.go:39-98 | in every reachable state, if the subject was not deleted since the minting, a token still accepted carries the wildcard if and only if its subject is an admin now |
| Revocation.ViewsAgreeIff | arc-lore-auth/perms.go:43-92 | two states give a subject the same view if and only if its role is the same and, for an admin, the registered ids, for anyone else, its grant rows |
| Revocation.AcceptedListIsCurrentIff | arc-lore-auth/service.go:39-98 | in every reachable state, if the subject was not deleted since the minting, the whole list of a token still accepted is the current view if and only if those same rows are unchanged |
| Revocation.RemovedGrantLingers | arc-lore-auth/api.go:932-953 | removing a grant revokes no token: one minted before is accepted after it and carries the permission its subject has lost |
| Recreation.LastAbsenceIsLast | arc-lore-auth/store.go:247-265 | every run splits at the last point where the user has no row, after which one stands throughout |
| Recreation.AcceptanceIsExact | arc-lore-auth/service.go:82-98 | over every run, deletions included: an unexpired token is accepted if and only if its row was kept unchanged, or was made anew and has since had exactly as many password and role changes as the stamp; otherwise the refusal says revoked, or not found when no row stands |
| Recreation.VersionCountsChangesOfTheStandingRow | arc-lore-auth/store.go:135-161 | over every run, the version is the number of changes since the standing row was created, on top of what it had if it was kept |
| Recreation.RevocationHoldsIff | arc-lore-auth/service.go:82-98 | of every run: "accepted if and only if nothing changed" holds exactly if the row was kept; or is gone after a change; or was made anew and, for stamp 0, was changed since or nothing was ever changed, for another stamp, there was a change and the new row has not had just that many |
| Recreation.StillRefusedIff | arc-lore-auth/service.go:82-98 | of every two runs in sequence: a token refused as revoked between them is refused at the end exactly if it has lapsed or the standing row is not at the stamp |
| Recreation.RefusedForGoodIff | arc-lore-auth/service.go:82-98 | whatever follows short of deletion, a token refused as revoked stays refused if and only if the row is past its stamp; the same holds if only runs at that instant count whose calls all present tokens those runs handed out |
| Recreation.FreshnessHoldsIff | arc-lore-auth/service.go:39-98 | of every run from a reachable state: "an accepted token carries the wildcard exactly for an admin" holds exactly if the token has lapsed, or the row was not made anew, or is not at the stamp, or has its role at the minting |
| Recreation.NoTokenIsRevokedForGood | arc-lore-auth/service.go:82-98 | from every reachable state after a minting, at any time from it to the expiry, there are further calls after which the token is accepted, with its subject in either role; their users log in first, so each presents a token an earlier reply handed out |
| Recreation.DeletionConditionIsNeeded | arc-lore-auth/service.go:82-98 | one run from first setup, in which every bearer was handed out by an earlier reply: a password change revokes the token, then deletion and re-creation bring it back, so it is accepted after a change, after a refusal and, if its subject was an admin, with the wildcard its subject has lost |
| Recreation.SomeRunRefutes | arc-lore-auth/service.go:82-98 | there are names and a password for such a run, so the claims do fail |
| ExampleRun.OpeningIsHonest | arc-lore-auth/api.go:275-366 | first setup hands the admin a token and the login hands the user one, and calls that present no others are honest |
| Interleaved.MintAtOnce | arc-lore-auth/service.go:39-69 | a mint whose reads all fall in one state is the one-step mint |
| Interleaved.AcceptedApartIff | arc-lore-auth/service.go:39-98 | however the reads of a mint fall, if the subject is not deleted after them, an unexpired token is accepted if and only if no password or role change succeeded after the last of them |
| Interleaved.FreshApartIff | arc-lore-auth/service.go:39-98 | with any calls between the reads, if the subject is not deleted after the last, a token still accepted carries the wildcard exactly for a current admin if and only if the role was the same at the first read and at the stamp |
| Interleaved.DemotionBetweenTheReads | arc-lore-auth/service.go:39-69 | one such run: a demotion between the reads leaves an accepted token with the wildcard for a subject that is no admin |
| Interleaved.GuardThenWriteIsTheHandler | arc-lore-auth/api.go:631-750 | guard and write in one state are the one-step handlers of delete and demote |
| Interleaved.GuardsApartKeepAnAdminIff | arc-lore-auth/api.go:631-750 | requests that all pass their guards in one state and then write leave an admin if and only if some admin of that state is nobody's target, as for a single request it is |
| Interleaved.TwoDemotionsLeaveNoAdmin | arc-lore-auth/api.go:704-750 | two demotions whose guards each count the other leave users without an admin |
| Privileges.FlagChangeIsEntitled | arc-lore-auth/api.go:571-750 | an admin flag rises only by first setup or at a current admin's request, and falls only at one's request with another admin remaining |
| Privileges.PromotionHasAnEntitledStep | arc-lore-auth/api.go:121-134 | whoever became an admin during a run was made one at a step by someone entitled then |
| Gates.AdminGateIff | arc-lore-auth/api.go:96-134 | an admin request answers 401 exactly without an accepted token and 403 exactly to an accepted non-admin, and then changes nothing |
| Gates.OwnPasswordGate | arc-lore-auth/api.go:96-113 | without an accepted token one's own password stays as it is, and the answer is 401 |
| Gates.RpcGateIff | arc-lore-auth/rebac.go:65-77 | the registry and exchange RPCs answer Unauthenticated exactly without an accepted token, and then change nothing |
| Gates.CheckGateIff | arc-lore-auth/grpc.go:285-305 | a permission check needs a bearer, and an accepted token of whom it asks about: the target's if one is given |
| Gates.LookupGateIff | arc-lore-auth/grpc.go:365-375 | a lookup is answered exactly for an accepted token |
| Gates.RevokedTokenDoesNothing | arc-lore-auth/api.go:96-134 | over every run that does not delete the subject, once its password or role has changed, every request with an earlier token is refused and changes nothing |
| Gates.RevokedTokenLearnsNothing | arc-lore-auth/grpc.go:285-398 | and no permission query answers such a token, or answers about it |
| Gates.HandedOutOnlyFor | arc-lore-auth/api.go:275-465 | a token is handed out only to a login with a matching password, to the setup or registration that makes the row, or to an exchange of an accepted token of the same subject, and is current then |
| Gates.TokensGoBackToCredentials | arc-lore-auth/grpc.go:146-188 | over every run whose callers present only what they were handed, each token handed out goes back to a credential of its subject |
| Gates.CallersShowedCredentials | arc-lore-auth/api.go:323-366 | and so does each token presented |
| Outcomes.LoginIff | arc-lore-auth/api.go:323-366 | 200 exactly for a standing user, a matching password of at most 1024 bytes and while mints go through; then the token is the user's, at its version, with its view; otherwise there is none |
| Outcomes.SetupAnswers | arc-lore-auth/api.go:275-319 | which setup answers what: 400 for a bad password or name, 409 once users exist, 201 otherwise |
| Outcomes.SetupOutcome | arc-lore-auth/store.go:340-390 | setup on an empty table makes exactly one admin row as asked and closes registration, leaving other settings; any other changes nothing |
| Outcomes.RegisterOutcome | arc-lore-auth/api.go:399-465 | which registration answers what, and that exactly an open, valid, new one makes a row that is no admin; a taken name gets no token |
| Outcomes.UsersCreateOutcome | arc-lore-auth/api.go:571-616 | which request answers what, and that a 201 made exactly the row asked for |
| Outcomes.OwnPasswordOutcome | arc-lore-auth/api.go:479-537 | 401, 400 and 200 exactly by whether the new password is good, the old one was shown, and they differ |
| Outcomes.AdminPasswordOutcome | arc-lore-auth/api.go:670-700 | 400, 404 and 200 exactly by the password and whether the user stands |
| Outcomes.UsersDeleteOutcome | arc-lore-auth/api.go:631-667 | a user is deleted unless missing (404) or the only admin (409) |
| Outcomes.UsersSetAdminOutcome | arc-lore-auth/api.go:704-750 | a role is set unless the user is missing (404) or it would take the only admin's (409) |
| Outcomes.ExchangeAnswers | arc-lore-auth/grpc.go:146-188 | an exchange answers Unauthenticated exactly without an accepted token, and otherwise OK while mints go through |
| Outcomes.ExchangeKeepsTheName | arc-lore-auth/grpc.go:134-188 | an exchange carries over the first non-blank of name, preferred name and subject |
| Privileges.SetAdminTakesEffect | arc-lore-auth/api.go:704-750 | a 200 means the flag is as asked and no other user's flag, and no grant, moved |
| Privileges.SetPasswordTakesEffect | arc-lore-auth/api.go:479-537 | both password handlers answer 200 exactly when one row has the new hash, the same flag and one version more, and everything else is untouched |
| Privileges.GrantChangeIsEntitled | arc-lore-auth/api.go:876-953 | a grant row appears only at an admin's request or for whoever registers the resource, and goes only at an admin's request or with its user or resource |
| Privileges.GrantHasAnEntitledStep | arc-lore-auth/store.go:442-475 | a grant acquired during a run was given at a step by someone entitled then |
| Privileges.SwitchFollowsTheToggle | arc-lore-auth/api.go:540-551 | registration is open after a call exactly if an admin's toggle opened it, or it was open and neither a toggle nor first setup closed it |
| Privileges.RegisterObeysTheSwitch | arc-lore-auth/api.go:399-465 | register is forbidden exactly while the switch is off, changes nothing then, and never changes who is an admin |
| Privileges.ResourceCreateOutcome | arc-lore-auth/api.go:809-834 | an admin's registration answers 201 or 400 and nothing else, and only 201 changes anything |
| Privileges.GrantAddOutcome | arc-lore-auth/api.go:876-929 | 201 exactly when the permission is known and the user and resource exist; then one row is added, otherwise nothing changes |
| Outcomes.KnownPermissions | arc-lore-auth/api.go:30-47 | the known permissions are these six, in any padding |
| Outcomes.GrantRemoveOutcome | arc-lore-auth/api.go:932-953 | 200 for every known permission, there or not, taking just that row |
| Outcomes.ResourceDeleteOutcome | arc-lore-auth/api.go:841-857 | 200 for every well-formed id, there or not, taking just that resource and its grants |
| Privileges.GrantThenRemove | arc-lore-auth/api.go:876-953 | a non-admin's view shows the grant after it is added, not after it is removed, and removing a new grant restores the tables |
| Registry.RemovalIsEntitled | arc-lore-auth/rebac.go:116-166 | a resource row disappears in a step only if its caller was then an admin or held owner on it |
| Registry.DisappearanceHasAnEntitledStep | arc-lore-auth/rebac.go:116-166 | over every run, a resource that is gone was removed at a step by such a caller |
| Registry.CreateSucceeds | arc-lore-auth/rebac.go:82-105 | create succeeds exactly for a verified caller and a well-formed id, existing or not, never failing part-way; a refusal changes nothing |
| Outcomes.RebacCreateAnswers | arc-lore-auth/rebac.go:82-105 | the codes of a create: no accepted token, then no well-formed id, else OK |
| Registry.CreateChangesNothingIff | arc-lore-auth/rebac.go:82-105 | in any state, a verified caller's create succeeds without change exactly if the resource stands under that name and the caller holds the owner set on it |
| Registry.RepeatedCreateChangesNothing | arc-lore-auth/rebac.go:82-105 | the same caller repeating a create, with any accepted token and any spelling of the id, succeeds and leaves every table as it was, the created time included |
| Registry.CreatedResourceStartsClean | arc-lore-auth/store.go:428-475 | a resource created where none stood has exactly its creator's three grants, whatever was there before |
| Registry.DeleteOutcome | arc-lore-auth/rebac.go:146-166 | success exactly for the entitled, present or not, leaving neither row nor grants of that resource; a refusal changes nothing |
| Outcomes.RebacDeleteAnswers | arc-lore-auth/rebac.go:116-166 | the codes of a delete: no accepted token, no well-formed id, neither admin nor owner, else OK |
| Registry.RepeatedDelete | arc-lore-auth/rebac.go:141-166 | repeating a delete changes nothing, and answers OK again exactly for an admin |
| Registry.OwnerDeletesOnce | arc-lore-auth/rebac.go:116-166 | whoever creates a resource without being an admin can delete it, and is refused the second time |
| Registry.SecondDeleteIsRefused | arc-lore-auth/rebac.go:141-166 | a run from empty tables in which an owner's repeated delete is refused |
| Permissions.SplitRequested | arc-lore-auth/grpc.go:306-355 | the loop over the requested ids yields the split the next rows characterize |
| Permissions.ServeCheckUserPermission | arc-lore-auth/grpc.go:285-355 | serving from the store gives the answer the model gives on its tables |
| Permissions.ServeLookupUserPermissions | arc-lore-auth/grpc.go:365-398 | serving the filtered lookup from the store gives the answer the model gives on its tables |
| Permissions.SplitKeepsOrderAndMultiplicity | arc-lore-auth/grpc.go:285-355 | allowed and denied are order-preserving picks of the request that together have its multiplicities |
| Permissions.AllowedIff | arc-lore-auth/grpc.go:285-355 | a requested id is allowed with given permissions if and only if they are its own entry's, or the wildcard's when it has none |
| Permissions.AdminPermissionsFor | arc-lore-auth/grpc.go:332-343 | for an admin a registered id has its own entry's six permissions, not the wildcard's four, which every other id has |
| Permissions.NonAdminPermissionsFor | arc-lore-auth/grpc.go:332-343 | for anyone else an id has exactly the permissions of its grant rows, and none without one |
| Permissions.CheckOnTheTables | arc-lore-auth/grpc.go:285-355 | so a check answers by the tables alone: which requested ids are allowed, and with which permissions, for an admin and for anyone else |
| Permissions.AdminIsDeniedNothing | arc-lore-auth/grpc.go:285-355 | for an admin the denied list is empty, whatever is requested |
| Permissions.EmptyFilterListsEverything | arc-lore-auth/grpc.go:365-398 | an empty filter drops nothing |
| Permissions.MatchingKeeps | arc-lore-auth/grpc.go:365-398 | a filter keeps exactly the entries whose id begins with it |
| Permissions.MatchingKeepsOrder | arc-lore-auth/grpc.go:365-398 | and keeps them in id order without repeats |
| Permissions.NonAdminCheckAgreesWithLookup | arc-lore-auth/grpc.go:285-398 | for a non-admin, a requested id is allowed if and only if the unfiltered lookup lists it, with the same permissions |
| Server.AuthServer.Setup | arc-lore-auth/api.go:275-319 | performed on the store, leaves the tables and the reply of the one-step handler |
| Server.AuthServer.Register | arc-lore-auth/api.go:399-465 | performed on the store, leaves the tables and the reply of the one-step handler |
| Server.AuthServer.MePassword | arc-lore-auth/api.go:479-537 | performed on the store, leaves the tables and the reply of the one-step handler |
| Server.AuthServer.UsersCreate | arc-lore-auth/api.go:571-616 | performed on the store, leaves the tables and the reply of the one-step handler |
| Server.AuthServer.UsersDelete | arc-lore-auth/api.go:631-667 | the guard reads and the delete, in order, leave the tables and the reply of the one-step handler |
| Server.AuthServer.UsersSetPassword | arc-lore-auth/api.go:670-700 | performed on the store, leaves the tables and the reply of the one-step handler |
| Server.AuthServer.UsersSetAdmin | arc-lore-auth/api.go:704-750 | the guard reads and the update, in order, leave the tables and the reply of the one-step handler |
| Server.AuthServer.ResourceCreate | arc-lore-auth/api.go:809-834 | upsert and then grants leave the tables and the reply of the one-step handler |
| Server.AuthServer.ResourceDelete | arc-lore-auth/api.go:841-857 | performed on the store, leaves the tables and the reply of the one-step handler |
| Server.AuthServer.GrantAdd | arc-lore-auth/api.go:876-929 | the scan for the resource and the grant leave the tables and the reply of the one-step handler |
| Server.AuthServer.GrantRemove | arc-lore-auth/api.go:932-953 | performed on the store, leaves the tables and the reply of the one-step handler |
| Server.AuthServer.ServeAdmin | arc-lore-auth/api.go:121-134 | the admin gate runs before any admin handler, and a refused call changes nothing |
| Server.AuthServer.RebacCreate | arc-lore-auth/rebac.go:82-105 | upsert and then grants leave the tables and the reply of the one-step handler |
| Server.AuthServer.CallerMayDelete | arc-lore-auth/rebac.go:116-139 | the scan lets through exactly the admins and those whose owner grant row exists |
| Server.AuthServer.RebacDelete | arc-lore-auth/rebac.go:146-166 | performed on the store, leaves the tables and the reply of the one-step handler |
| Sessions.SessionStore.Create | arc-lore-auth/session.go:75-89 | one fresh pending entry, stamped now; nothing else changes |
| Sessions.SessionStore.Get | arc-lore-auth/session.go:95-109 | a live session as it is; an expired one is dropped and not returned |
| Sessions.SessionStore.Complete | arc-lore-auth/session.go:114-135 | stamps exactly one pending, unexpired session; every refusal has its own error |
| Sessions.SessionStore.Take | arc-lore-auth/session.go:145-171 | hands a completed session to the matching client state and removes it |
| Sessions.SessionStore.SweepExpired | arc-lore-auth/session.go:176-192 | no session older than the TTL at the reading remains, younger ones stay, and the count is the number removed |
| Sessions.SessionHasHistory | arc-lore-auth/session.go:75-171 | every entry present in any run was made by its one Create and, if completed, stamped by an earlier Complete |
| Sessions.DeliveredAtMostOnce | arc-lore-auth/session.go:145-171 | over every interleaving with fresh codes, a code is delivered at most once |
| Sessions.CompletedAtMostOnce | arc-lore-auth/session.go:114-135 | over every interleaving with fresh codes, a code is completed at most once |
| Sessions.DeliveryIsTheCompletion | arc-lore-auth/session.go:145-171 | what is delivered is the token and expiry of the single Complete after the single Create of that code, within the TTL, to the client state that Create was given |
| Sessions.StepHidesMissing | arc-lore-auth/session.go:95-171 | entries already dead at the clock do not show: with or without them every step answers alike |
| Sessions.SweepIsInvisible | arc-lore-auth/session.go:176-192 | a sweep put anywhere in a run, with a reading no later than what follows, changes no later success or result, and changes the wording of a refusal exactly at a Complete that comes first to a code the sweep removed, before another sweep would have |
| Handshake.SessionStandsIff | arc-lore-auth/session.go:75-192 | over every interleaving with fresh codes, a created session stands, as made and stamped, exactly while no access or sweep found it past the TTL and its creator has not polled it after a Complete |
| Handshake.CompletesIff | arc-lore-auth/session.go:114-135 | a Complete succeeds exactly if it is the code's first, comes within the TTL, and nothing before found the session past it: no poll, however many, prevents it |
| Handshake.DeliversIff | arc-lore-auth/session.go:145-171 | a Take delivers, and delivers what the first Complete stamped, exactly if it shows the creator's state within the TTL, first of such polls after that Complete |
| Handshake.GetsIff | arc-lore-auth/session.go:95-109 | a Get returns the session as it stands, exactly while it stands and is within the TTL |
| Handshake.NothingWithoutCreate | arc-lore-auth/session.go:75-171 | a code never created is never in the table |
| TokenBucket.KeysAreIndependent | ArcLoreWeb/internal/auth/throttle.go:51-76 | in the never-trimming reference a key gets the answers it would get alone |
| TokenBucket.AdmissionsArePaidFor | ArcLoreWeb/internal/auth/throttle.go:51-76 | over every run, admissions are covered by the starting level and what flowed in |
| TokenBucket.WindowBound | ArcLoreWeb/internal/auth/throttle.go:51-76 | in any window a key is admitted at most burst plus elapsed/refill times |
| TokenBucket.PatientCallerIsNeverRefused | ArcLoreWeb/internal/auth/throttle.go:51-76 | with a burst of at least one, a call a refill interval after the key's previous one is admitted |
| TokenBucket.SpendOnTrimmed | ArcLoreWeb/internal/auth/throttle.go:51-94 | a map that lost only refilled buckets answers as the full one, and stays so |
| Limiters.LoginThrottle.Allow | ArcLoreWeb/internal/auth/throttle.go:51-76 | updating the bucket in place gives the answer and the state of one step of the model |
| Limiters.LoginThrottle.Trim | ArcLoreWeb/internal/auth/throttle.go:81-94 | the deleting loop removes exactly the buckets back at capacity, at most once an interval |
| Limiters.RateLimiter.Allow | arc-lore-auth/web.go:126-153 | updating the bucket in place gives the answer and the state of one step of the model |
| Limiters.RateLimiter.Trim | arc-lore-auth/web.go:158-172 | the deleting loop removes exactly the buckets idle past the cut-off, at most once an interval |
| Limiters.ThrottleTrims | ArcLoreWeb/internal/auth/throttle.go:81-94 | a trim is due at 1024 buckets or after ten refill intervals, and leaves exactly the buckets that are not full again |
| Limiters.RateLimiterTrims | arc-lore-auth/web.go:158-172 | a trim is due every five minutes, and leaves exactly the buckets used within ten |
| Limiters.ThrottleStepLeaves | ArcLoreWeb/internal/auth/throttle.go:51-94 | a call admits exactly with a token left, settles its own bucket, and of the others drops just the full ones when a trim is due |
| Limiters.RateStepLeaves | arc-lore-auth/web.go:126-172 | the same for the rate limiter, which drops the idle ones, its own included |
| Limiters.ThrottleIsTheReference | ArcLoreWeb/internal/auth/throttle.go:51-94 | on every run with a clock that does not go back, the trimming throttle answers call for call as the reference |
| Limiters.RateLimiterIsTheReference | arc-lore-auth/web.go:126-172 | the same for the rate limiter when a whole burst refills within the idle cut-off |
| Limiters.TrimmingInvisibleIff | arc-lore-auth/web.go:126-172 | it answers every run as the reference if and only if burst times refill is at most the cut-off |
| Limiters.LimitersAgree | arc-lore-auth/web.go:126-172 | under that condition and equal parameters both limiters answer every call alike |
| Limiters.ThrottleKeysAreIndependent | ArcLoreWeb/internal/auth/throttle.go:51-94 | calls with other keys, and the trims they trigger, never change a key's answers |
| Limiters.RateKeysAreIndependent | arc-lore-auth/web.go:126-172 | the same for the rate limiter within the cut-off |
| Limiters.ThrottleWindowBound | ArcLoreWeb/internal/auth/throttle.go:51-94 | the window bound for the throttle itself, buckets trimmed and re-created in between |
| Limiters.ThrottleNeverRefusesThePatient | ArcLoreWeb/internal/auth/throttle.go:51-94 | the patience guarantee for the throttle itself |
| AuthzCache.Client.StoreToken | ArcLoreWeb/internal/lore/exchange.go:309-323 | pruning in a loop and storing leaves every unlapsed entry and the new one |
| AuthzCache.Client.ResourceAuthzToken | ArcLoreWeb/internal/lore/exchange.go:274-323 | a hit returns the cached token unchanged; a miss returns the exchange's token, and an error stores nothing |
| AuthzCache.KeyIsUniqueIff | ArcLoreWeb/internal/lore/exchange.go:274-323 | a pair shares its joined key with no other pair if and only if neither its identity nor its resource holds a NUL |
| AuthzCache.InterleavingKeepsWorld | ArcLoreWeb/internal/lore/exchange.go:274-323 | under every interleaving of lookups, exchanges and stores, every entry is from an exchange for its own key's pair |
| AuthzCache.TokensComeFromTheirOwnExchange | ArcLoreWeb/internal/lore/exchange.go:274-323 | the token a caller gets came from an exchange for exactly its identity and resource, and a hit had more than the skew left at its reading |
| AuthzCache.AloneLikeTheMethod | ArcLoreWeb/internal/lore/exchange.go:274-323 | the machine's steps, taken by one caller in a row, pass through, hit, store or fail just as the method does |
| AuthzCache.OnlyTheNewEntryMayHaveLapsed | ArcLoreWeb/internal/lore/exchange.go:309-323 | after a store every other entry is unlapsed at the reading |
| AuthzCache.PruneInvisibleIff | ArcLoreWeb/internal/lore/exchange.go:309-320 | no lookup of any pair, in any cache the stores can build, can tell whether it was pruned if and only if its clock is not too far behind the pruner's |
| AuthzCache.ServedUntilTheSkew | ArcLoreWeb/internal/lore/exchange.go:274-323 | an entry is served unchanged until the skew, through every store for other keys and the prunes they make at readings no later than the lookup's |
| AuthzCache.PruningIsInvisible | ArcLoreWeb/internal/lore/exchange.go:309-323 | with readings no older than the pruner's, every lookup of a run hits or misses as in a cache that never prunes |
| CachedViews.ExchangeCarriesTheView | arc-lore-auth/grpc.go:146-188 | an exchange gives its subject's current view exactly while the identity is accepted and mints go through |
| CachedViews.HitAgreesWithExchangeIff | ArcLoreWeb/internal/lore/exchange.go:274-323 | in every reachable state, what an earlier exchange left in the cache is what an exchange now would give if and only if the identity is still accepted, mints go through, and the role and the rows behind the view are unchanged |
| CachedViews.RemovedGrantIsStillCached | ArcLoreWeb/internal/lore/exchange.go:286-294 | removing a grant leaves the identity, and so the key, as it was, while the cached view allows what a new exchange does not |
| CachedViews.RevokedIdentityExchangesNothing | ArcLoreWeb/internal/lore/exchange.go:286-294 | over a run that does not delete the subject, an unexpired identity still exchanges if and only if there was no password or role change and mints go through, though its cache key stays the same |
| WorkerPool.StepKeepsInv | ArcLoreWeb/internal/handlers/commit.go:156-194 | every step of any goroutine keeps the semaphore and wait-group counts exact and every started slot running or holding its result |
| WorkerPool.AtMostSixInFlight | ArcLoreWeb/internal/handlers/commit.go:156-194 | under every schedule at most six workers hold the semaphore, and no release or Done can block or underflow |
| WorkerPool.WaitsIff | ArcLoreWeb/internal/handlers/commit.go:156-194 | the main goroutine waits exactly while six workers hold the semaphore, and at the end for those still alive; a worker writes as soon as it is started |
| WorkerPool.NeverStuck | ArcLoreWeb/internal/handlers/commit.go:156-194 | in every reachable state short of the end some goroutine can step |
| WorkerPool.EveryScheduleEnds | ArcLoreWeb/internal/handlers/commit.go:156-194 | no schedule is longer than six steps a file and two |
| WorkerPool.WaitPassesOnlyWhenDone | ArcLoreWeb/internal/handlers/commit.go:156-194 | the wait passes only with every slot written, by the results of the left-to-right computation |
| WorkerPool.EveryScheduleGivesTheSequentialAnswer | ArcLoreWeb/internal/handlers/commit.go:156-194 | after every schedule the sorted, flattened file list and both totals are the sequential ones, entries past the cap included |
| WorkerPool.CommitTotalsAreSidebarSums | ArcLoreWeb/internal/handlers/commit.go:156-223 | with well-counted parses those totals are the sums of the sidebar's counts, in uint64 |
| WorkerPool.SortByIndexSorts | ArcLoreWeb/internal/handlers/commit.go:184 | the sort orders results by index and loses none |
| ResolvedDiffs.ResolvedShows | ArcLoreWeb/internal/handlers/commit.go:238-323 | a change whose two text versions parse into a diff shows each parsed file with its fragments, named and stamped; any other shows one listing, binary exactly for a binary side |
| ResolvedDiffs.ResolvedCounts | ArcLoreWeb/internal/handlers/commit.go:304-322 | and counts exactly what the shown fragments declare, in uint64 |
| ResolvedDiffs.EveryScheduleShowsTheDiffs | ArcLoreWeb/internal/handlers/commit.go:156-194 | after every schedule each change has its files in its place in the list: its diff if it has one and is among the first two hundred, else its listing |
| ResolvedDiffs.EveryScheduleCountsTheDiffs | ArcLoreWeb/internal/handlers/commit.go:156-194 | and the totals are what the shown diffs declare, in uint64 |
| CommitDiff.FlattenResults | ArcLoreWeb/internal/handlers/commit.go:184-193 | the accumulating loop computes the concatenation and both wrapped sums |
| CommitDiff.BuildCommitFiles | ArcLoreWeb/internal/handlers/commit.go:200-223 | one view for each non-nil file, in order, with its declared counts |
| CommitDiff.SidebarLists | ArcLoreWeb/internal/handlers/commit.go:200-223 | each file is listed once, in order, under its new or else its old name, a binary one counting nothing |
| CommitDiff.ViewAgreesWithSidebarIff | ArcLoreWeb/internal/handlers/commit.go:200-223 | with well-counted fragments, a file's rendered path and counts are its sidebar's if and only if it is not a binary file with changed lines |
| CommitDiff.ResolvedCountsItsFiles | ArcLoreWeb/internal/handlers/commit.go:238-323 | on every branch a resolved result's counts are the lines of the files it lists, modulo 2^64 |
| CommitDiff.TotalsCountLines | ArcLoreWeb/internal/handlers/commit.go:184-193 | the commit's totals count the lines of all listed files, modulo 2^64 |
| CommitDiff.SidebarSumsToTotals | ArcLoreWeb/internal/handlers/commit.go:184-223 | the sidebar's counts sum to the commit's totals |
| DiffView.BuildHunk | ArcLoreWeb/internal/render/diff.go:145-170 | the inner loop's running numbers and counters are the positions and counts of the lines so far |
| DiffView.BuildDiffFileView | ArcLoreWeb/internal/render/diff.go:138-174 | the nested loops compute the view the next four rows characterize |
| DiffView.HunkNumbering | ArcLoreWeb/internal/render/diff.go:138-174 | without the added rows old numbers count up by one from OldPosition; without the deleted rows new numbers do from NewPosition |
| DiffView.RowsMirrorLines | ArcLoreWeb/internal/render/diff.go:138-174 | each row has its line's kind and text, and no number on the side its line is absent from |
| DiffView.KindsAreCounted | ArcLoreWeb/internal/render/diff.go:138-174 | a hunk has as many rows of each kind as its fragment has lines |
| DiffView.FileCountsAreRowCounts | ArcLoreWeb/internal/render/diff.go:138-174 | a file's added and deleted counts are the rows of that kind in all its hunks |
| DiffView.ViewDescribesTheFile | ArcLoreWeb/internal/render/diff.go:138-183 | a view has its file's path and flags, and a hunk with its header and as many rows as lines for each fragment |
| DiffView.TrimNewlineCuts | ArcLoreWeb/internal/render/diff.go:149 | a row's text is its line less the one newline at its end, if any |
| DiffView.Decimal | ArcLoreWeb/internal/render/diff.go:219-231 | every non-negative int64 is written so that reading it back gives it, without leading zeros, within the buffer |
| Encoding.DigitsAreNumerals | ArcLoreWeb/internal/lore/encoding.go:34-50 | each value is written as its numeral, which is read in either case, and no other character is a digit |
| Encoding.ByteByByte | ArcLoreWeb/internal/lore/encoding.go:34-50 | each byte of a text is its own two digits, the higher one first |
| Encoding.ParseIdUndoesIdToHex | ArcLoreWeb/internal/lore/encoding.go:34-50 | parsing undoes printing for every 16-byte id |
| Encoding.IdToHexLowercases | ArcLoreWeb/internal/lore/encoding.go:34-50 | exactly 32 hex digits of either case are accepted, and printing what was parsed gives the text in lower case |
| Encoding.ParseAddressAcceptsExactly | ArcLoreWeb/internal/lore/encoding.go:70-87 | exactly 64 hex digits, a dash and 32 hex digits are accepted, and give a 32-byte hash and a 16-byte context |
| Encoding.ParseUndoesPrint | ArcLoreWeb/internal/lore/encoding.go:55-87 | an address prints if and only if its lengths are right, and parsing undoes printing |
| Encoding.PrintLowercases | ArcLoreWeb/internal/lore/encoding.go:55-87 | printing a parsed address gives the text in lower case |
| Encoding.AddressErrors | ArcLoreWeb/internal/lore/encoding.go:55-66 | what is wrong with an address is told in order: nil, its hash, its context |
| Encoding.AddressTextErrors | ArcLoreWeb/internal/lore/encoding.go:70-87 | and with a text: its length, its first dash, the hash's digits, the context's |
| Encoding.IdErrors | ArcLoreWeb/internal/lore/encoding.go:39-50 | and with an id: its length, then its digits |
| Encoding.WireAgreesWithText | ArcLoreWeb/internal/lore/encoding.go:55-107 | the wire form fails exactly as the text form does; otherwise it is the text form's bytes and splits back into the address |
| Encoding.SpellingsNormalizeAlike | arc-lore-auth/api.go:788-800 | any accepted spelling of an id, with or without the prefix, normalizes to the resource AuthzToken asks for |
| Encoding.PrintedIdsNormalize | ArcLoreWeb/internal/lore/exchange.go:329-335 | IdToHex's output and its prefixed form both normalize to the string AuthzToken builds |
| Encoding.CanonicalIffAuthzResource | ArcLoreWeb/internal/lore/exchange.go:329-335 | the ids a resource row can have are exactly those AuthzToken can ask for |

## Left out

- Interleaving inside a handler: each is one step here, though the program makes several store calls in each. The mint (arc-lore-auth/service.go:40-53) and the last-admin guards (arc-lore-auth/api.go:631-750) are also taken apart, in Interleaved; the other handlers are not.
- SQLite and its driver, the migrations and internal store errors: the tables are maps and sets with the schema's keys, CHECK, foreign keys and cascades; INSERT OR IGNORE is taken to skip key and CHECK conflicts but not foreign keys, as SQLite documents.
- JWT signing and parsing, argon2, random codes and HMAC: tokens are claims, and hashes, password matches and codes are parameters. A run may present any claims, which only makes what holds of all runs stronger; where a run is exhibited, every bearer in it was handed out before (ControlPlane.Honest).
- Claims that take no part in any decision: env, idp, iat, is_service_account; the minted name is kept.
- Rate-limit refusals (429), JSON decoding, cookies, CSRF, HTTP and gRPC plumbing, and templates around the handlers.
- The existed result of UpsertResource, which its callers ignore.
- Tokens minted by the command line, the userdel command, the secret-gated HTML create page, ImportLegacyUser, ListUsers, FindByDisplayName and GetUserInfo.
- Floating-point rounding in the limiters, and readings out of order: levels are reals, refill must be positive, and the clock does not go back from one call to the next, though the rate limiter reads it before taking its lock (arc-lore-auth/web.go:127-129).
- 64-bit overflow of token versions and line numbers; the commit totals do wrap.
- Lower-casing outside ASCII beyond the two characters that become ASCII letters, and text that is not valid UTF-8: every identifier check refuses both.
- The algorithms inside sort.Strings and sort.SliceStable: an insertion sort with the same result stands for each.
- Map entries are values in the session store and the limiters, where the program updates them through pointers under the same lock; aliasing of an entry outside the lock is not modelled.
- DiffView.BuildHunk: the inner loop of one function is a method of its own, with counters that start at zero and are added to the file's.
- Fetching and recovering contents, the unified diff and its parsing: a file's fetched sides and parsed fragments are inputs, and fragments' declared counts are assumed to count their lines only where a row says so.
- Sessions.SweepIsInvisible: a Complete that would have answered "expired" answers "unknown" after a sweep, exactly where the lemma says; no success or delivered result changes.
- Limiters.RateLimiterIsTheReference: needs the whole burst to refill within the cut-off; Limiters.TrimmingInvisibleIff proves that this is exactly when it holds.
- Revocation.RevocationIsExact: needs the subject not to be deleted during the run, because re-creation restarts the version; Recreation.RevocationHoldsIff says of every run when it holds.
- Revocation.RevokedForever: needs the same; Recreation.StillRefusedIff and Recreation.RefusedForGoodIff say when it holds.
- Revocation.AcceptedTokensAreFresh: needs the same; Recreation.FreshnessHoldsIff says of every run when it holds.
- authURLToTarget, ClassifyExchangeErr, splitMessage, clientIP and the admin form's signed gate: they only compute one value.

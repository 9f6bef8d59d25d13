# HyprShelld: verified models of its transaction protocols and codecs

HyprShelld keeps a Hyprland desktop's configuration and its user-installed components. Its
hard parts are protocols that must survive a crash at any instant and codecs whose two
directions must agree. This project models them in Dafny and proves, for every run and every
input, what they are for. The models follow the C++ sources, of which nothing was executed;
check the proofs with `dafny verify dfyconfig.toml`.

| module | what it models |
|---|---|
| `ActivationProtocol` | the state on disk, the journal and the bridge, and an automaton over the order of calls |
| `DurableWorld` | the configuration authority, the entrypoint publisher and the Hyprland runtime, by what their headers promise; every outcome is arbitrary within that |
| `LiveBackend` | `LiveActivationBackend` |
| `Compositor` | `CompositorService`: apply, recovery, adoption, display previews, polling, the shared-visual reconciler, restarts |
| `PackageStore` | the user package store over single file-system steps |
| `UnicodeText`, `Binary64Numbers` | UTF-16 text; finite doubles by their bits, what they are worth, and which integers are among them |
| `CanonicalJson`, `CanonicalJsonInversion`, `CanonicalJsonCodec` | the RFC 8785 grammar, the inversion theorems, the stateful serializer and reader |
| `PackageBundle` | the component bundle and its digest framing |
| `DecimalNumbers` | the scan for number tokens and their exact comparison (RFC 8259 section 6) |
| `FixedRecordCapture` | the two-pass capture of five records against an arbitrary kernel |
| `InspectorLauncher`, `InspectionSessions` | the systemd launcher's bookkeeping and the inspection sessions |
| `ZipPreflight` | the check of a component archive's bytes before a ZIP library reads them |
| `SettingsNormalization`, `SettingsSchema`, `SchemaParser` | setting values, whole setting objects, and the schema parser |
| `PlacementValidation` | the placement passes of the surface plan and the configuration |
| `Options` | an option type |

## How the models are built

Code that works step by step is modelled by classes with the same fields, and methods with
the same branches. What the code cannot know (a failed fsync, a lost compositor, a short
read, another process) is an arbitrary choice; counters such as `refusals` and `faults`
let a contract also say what happens when nothing goes wrong. Every write goes into a
`trace`, so that "a crash at any step" is a statement about each of its elements. The
authority, the publisher and the runtime are classes whose bodies may do anything their
headers allow. Uninterpreted parts (text normalisation, case folding, hashing, number
conversion, path rules) are function-valued parameters, with the few properties needed
stated as predicates: `Sound`, `Idempotent`, `CollisionFree`, `Persistable`. The two that ask
most of a function are shown to be met by one: `CanonicalJsonInversion.SoundCodecExists`,
`PackageStore.SomePolicyIsCollisionFree`.

The central invariant of activation is `CrashSafe`: with no bridge on disk, entrypoint and
ownership already belong to the generation the authority will call committed; with a bridge,
that generation is one of its two sides, and its target only once the target is live. Every
write of every method keeps it. `World.running` is the generation the compositor last
confirmed to have loaded, so that contracts can say what is live and not only what is on disk.
`World.proofs` keeps each positive answer of authority, publisher, runtime and clock, so that a
contract can say that a success rests on the checks that had to come before it, and on which
answers.
`Accepted` is the automaton's acceptance of the log of calls;
the service keeps it too, so the lemmas of `ActivationProtocol` hold of every run.

## Where the code differs from what one would expect

- A package path with a lone surrogate is written as a question mark: such a list does not
  come back from its bundle, and two different lists can have one digest preimage.
  `PackageBundle.BundleRoundTrip` gives the exact condition of the round trip,
  `PackageBundle.PreimageDecides` says which lists have one preimage, and
  `PackageBundle.LoneSurrogatesCollide` gives an example with permitted paths.
- The launcher accepts a token again as soon as its start ended, even while the reply to that
  start is outstanding; both job paths then end in one map and one of them in the other
  (`InspectorLauncher.ReofferedTokenBreaksIndex`). The run theorem excludes just that.
- Key names and portal selections are measured before text normalisation, which can lengthen
  text (U+0958 becomes two units). The normaliser is a fixpoint map exactly when the normal
  form still fits: `SettingsNormalization.NormalIsFixpoint`, with an example in
  `SettingsNormalization.KeyNameMayOutgrowItsBound`; and an accepted schema's own defaults
  are accepted exactly when its default key bindings still fit:
  `SchemaParser.AcceptedDefaultsSucceed`, with an example in
  `SchemaParser.AcceptedDefaultMayBeRefused`.
- The 32-bit sum of central offset and size can wrap in archives past four gibibytes
  (`ZipPreflight.SumWrapsOnHugeArchives`). The preflight then refuses; it never accepts such
  an archive wrongly. The inspector reads at most 32 MiB, where the sum is exact and the
  preflight accepts each described archive (`ZipPreflight.PreflightArchive`).
- The pattern for colours also matches before one trailing newline, so a colour may carry
  one (`SettingsNormalization.IsColor`).
- Numbers are in bijection with texts only up to representation: an integer, the equal double
  and, for zero, the negative zero have the same text (`CanonicalJsonInversion.SerializeDecides`).
- Recovery of the package store prunes a component only when its receipt can be read, is its own
  and names a version that is there; otherwise every version stays, the superseded ones too
  (`PackageStore.UserPackageStore.Recover`).

## Model

| member | source | states |
|---|---|---|
| ActivationProtocol.CommitIsOneWay | src/compositord/compositor_service.cpp:2635-2706 | in every accepted order of calls, a commit that succeeded or whose decision may exist is followed by no rollback and no abort before the next prepare |
| ActivationProtocol.RollbackBeforeAbort | src/compositord/compositor_service.cpp:2584-2633 | after an activation that may have occurred, the transaction is aborted only behind a successful rollback |
| ActivationProtocol.RollbackOnlyOnce | src/compositord/compositor_service.cpp:1587-1601 | a transaction is rolled back successfully at most once, and never committed after that |
| ActivationProtocol.OneTransactionAtATime | src/compositord/compositor_service.cpp:1461-1466 | between two successful prepares the first transaction was aborted or finalized |
| ActivationProtocol.TerminationIsFinal | src/compositord/compositor_service.cpp:1571-1586 | once termination of a display capability started, in every later state it can no longer be confirmed |
| ActivationProtocol.TerminatedIsNeverConfirmed | src/compositord/compositor_service.cpp:1571-1625 | a capability whose termination started, even with a failed revert, is never committed while installed and never reported confirmed |
| ActivationProtocol.EndedIsGone | src/compositord/compositor_service.cpp:1616-1624 | an ended capability is referred to by no later state |
| ActivationProtocol.OneTerminalPerCapability | src/compositord/compositor_service.cpp:1267-1335 | each capability ends at most once, so it is at most one of confirmed, reverted and expired |
| DurableWorld.ConfigurationAuthority.Initialize | src/compositord/configuration_authority.h:144-146 | a prepared journal is dropped and a committing one rolled forward; every disk on the way is one a crash may leave |
| DurableWorld.ConfigurationAuthority.Prepare | src/compositord/configuration_authority.h:170-195 | writes at most the prepared journal; when nothing goes wrong the generation handed out is complete, qualified and of the shape expected, and what was handed out is recorded |
| DurableWorld.ConfigurationAuthority.CommitApply | src/compositord/configuration_authority.h:125-134 | the committing marker, the committed tuple and the journal removal in that order; the two decision flags say exactly when a decision may exist; success makes exactly the intended state applied |
| DurableWorld.ConfigurationAuthority.AbortApply | src/compositord/configuration_authority.h:178-209 | only the journal goes; success means it is gone, and the mirrors stay at the old revision |
| DurableWorld.ConfigurationAuthority.ReplaceSnapshot | src/compositord/configuration_authority.h:169-170 | a new revision with the candidate as desired state, or nothing; the current revision and the exact retry succeed when nothing goes wrong; the applied state and the disk are untouched |
| DurableWorld.EntrypointPublisher.Publish | src/compositord/activation_backend.h:250-256 | the bridge first, then the entrypoint; a refusal says whether the namespace may have changed |
| DurableWorld.EntrypointPublisher.PendingReconciliation | src/compositord/activation_backend.h:257-258 | reports exactly the bridge found on disk |
| DurableWorld.EntrypointPublisher.Rollback | src/compositord/activation_backend.h:259-261 | success returns the entrypoint to the prior side; ownership and bridge stay |
| DurableWorld.EntrypointPublisher.Finalize | src/compositord/activation_backend.h:262-265 | success writes the ownership of the chosen side and removes the bridge, passing through listed states only |
| DurableWorld.EntrypointPublisher.VerifyTransition | src/compositord/activation_backend.h:266-269 | succeeds only for the pending receipt with the chosen side live |
| LiveBackend.LiveActivationBackend.BindFilesystemContext | src/compositord/activation_backend.cpp:389-403 | a context is bound once, and only then counts as bound |
| LiveBackend.LiveActivationBackend.Status | src/compositord/activation_backend.cpp:405-420 | managed or unmanaged only when bound to the committed generation and no finalization failed; otherwise a conflict |
| LiveBackend.LiveActivationBackend.CanSatisfy | src/compositord/activation_backend.cpp:422-428 | nothing can be satisfied unbound, without a version policy or after a failed finalization |
| LiveBackend.LiveActivationBackend.ConnectedDisplays | src/compositord/activation_backend.cpp:805-827 | asks the runtime only when operational, and changes nothing on disk |
| LiveBackend.LiveActivationBackend.PublishAndActivate | src/compositord/activation_backend.cpp:534-647 | success means that a qualified generation that needs no more than a reload is live with a receipt, behind the answers to four questions asked in this order: the requirement, the session, the reload of exactly this generation, the exact target; an unqualified generation leaves disk and compositor untouched, and each refusal that precedes a write has its own reason; every intermediate disk is crash-safe |
| LiveBackend.LiveActivationBackend.Attempt | src/compositord/activation_backend.cpp:586-646 | the same without the log of calls: nothing may have occurred unless the generation may be activated, and then disk and compositor are untouched |
| LiveBackend.LiveActivationBackend.Admit | src/compositord/activation_backend.cpp:534-585 | a session is opened only for a qualified generation, with a version policy, bound to the side the call expects; each other case has its own reason |
| LiveBackend.LiveActivationBackend.Rollback | src/compositord/activation_backend.cpp:664-754 | success restores entrypoint and ownership to the committed generation, in a session of the right kind, reloaded and proved exact before the bridge is removed; it needs the pending bridge of that receipt and never touches the journal |
| LiveBackend.LiveActivationBackend.Undo | src/compositord/activation_backend.cpp:686-754 | the pending bridge is rolled back for exactly the receipt given |
| LiveBackend.LiveActivationBackend.RestorePrior | src/compositord/activation_backend.cpp:697-753 | the prior side is reloaded, confirmed and proved exact before the bridge is finalized to it |
| LiveBackend.LiveActivationBackend.FinalizeCommitted | src/compositord/activation_backend.cpp:756-803 | success settles the disk on the committed target, for the pending bridge of that receipt and target only; failure latches the backend into conflict, and another receipt or target leaves the disk as it was |
| LiveBackend.LiveActivationBackend.Bind | src/compositord/activation_backend.cpp:784-803 | the bridge is finalized only to the committed target |
| LiveBackend.LiveActivationBackend.VerifyPendingTarget | src/compositord/activation_backend.cpp:860-900 | positive exactly after the publisher showed the pending bridge of that receipt and target and proved its target exact; each refusal has its reason; nothing changes |
| LiveBackend.LiveActivationBackend.ReconcileStartup | src/compositord/activation_backend.cpp:442-532 | from every crash-safe disk whose committed generation is given, success leaves ownership and entrypoint at that generation and no bridge, a rolled-back one proved exact; the "neither side" refusal is given exactly for a bridge without that generation, and not reached from such a disk; without a fault it succeeds |
| LiveBackend.LiveActivationBackend.FinalizeTarget | src/compositord/activation_backend.cpp:481-500 | success removes the bridge and writes the committed target as owner; every disk on the way is crash-safe |
| LiveBackend.LiveActivationBackend.BoundTo | src/compositord/activation_backend.cpp:488-531 | positive only when the probed status is bound to the committed generation |
| Compositor.CompositorService.constructor | src/compositord/compositor_service.cpp:107-149 | a new process is unreconciled and has touched nothing |
| Compositor.StatusFollowsAuthority | src/compositord/compositor_service.cpp:84-105 | managed and unmanaged are reported exactly when the authority says so too, and previewing exactly for the generation of the preview |
| Compositor.CompositorService.AcceptState | src/compositord/compositor_service.cpp:2726-2802 | mirrors the authority, binds the reported status to it, and drops the ownership of a shared-visual apply once its revision is overtaken or applied |
| Compositor.CompositorService.AcceptUnreconciled | src/compositord/compositor_service.cpp:2708-2724 | the service becomes unavailable, read-only and in conflict, and inert with no capability installed |
| Compositor.CompositorService.InitializeAuthority | src/compositord/compositor_service.cpp:167-223 | on every crash-safe disk all writes are crash-safe; success means both parties agree and the status says so; without a fault it succeeds |
| Compositor.CompositorService.Reconcile | src/compositord/compositor_service.cpp:190-223 | startup reconciliation for the decision the authority took |
| Compositor.CompositorService.Prepare | src/compositord/compositor_service.cpp:545-556 | a prepare keeps every disk crash-safe and is logged only if it succeeded |
| Compositor.CompositorService.Abort | src/compositord/compositor_service.cpp:2546-2555 | aborting is allowed only in a phase without anything live |
| Compositor.CompositorService.UndoAndAbort | src/compositord/compositor_service.cpp:2584-2633 | rollback first where anything may be live, abort only behind it; a failure of either stops the service |
| Compositor.CompositorService.Commit | src/compositord/compositor_service.cpp:2635-2682 | only a live target is committed; the flags decide whether it may still be rolled back |
| Compositor.CompositorService.Finalize | src/compositord/compositor_service.cpp:2683-2706 | finalization follows a durable decision only |
| Compositor.CompositorService.Activate | src/compositord/compositor_service.cpp:2584-2587 | one activation per prepared transaction, of a qualified generation that needs no more than a reload, from the side expected; otherwise nothing is touched |
| Compositor.CompositorService.CompletePrepared | src/compositord/compositor_service.cpp:2467-2706 | whatever fails, the disk stays crash-safe and the order of calls accepted; success means that the prepared generation was qualified, met the expected requirement and the expected side, was proved live in the order of the source, and is committed, running and settled with exactly the intended state applied; an unqualified one never goes live; without a fault an attempt that may succeed does, and any other is settled as before |
| Compositor.CompositorService.Decide | src/compositord/compositor_service.cpp:2635-2706 | commit then finalize; a decision that may exist is never rolled back, and a commit without one is |
| Compositor.CompositorService.AbortStaged | src/compositord/compositor_service.cpp:2556-2582 | a generation that is not activated is aborted |
| Compositor.CompositorService.GiveUp | src/compositord/compositor_service.cpp:2584-2633 | a failed or mismatched activation is undone and aborted, or leaves the service unreconciled |
| Compositor.CompositorService.DisplayTopologyStillExact | src/compositord/compositor_service.cpp:1522-1569 | positive exactly after a topology was reported with the runtime identity and digest of the baseline that accepts and realizes the profile, and then the publisher proved the target of the receipt exact |
| Compositor.CompositorService.ProveDisplayed | src/compositord/compositor_service.cpp:1132-1187 | the deadline, the displays and the deadline again, in this order |
| Compositor.CompositorService.RevertDisplayConfirmation | src/compositord/compositor_service.cpp:1571-1625 | success ends the capability with the prior state live and confirmed and the journal gone; failure leaves it terminating; without a fault it succeeds exactly when an earlier attempt rolled back or the bridge back to the committed side is still there |
| Compositor.CompositorService.UndoPreview | src/compositord/compositor_service.cpp:1586-1600 | the live target is rolled back and proved exact, once: skipped without a call when an earlier attempt did so |
| Compositor.CompositorService.AbortPreview | src/compositord/compositor_service.cpp:1601-1625 | the journal of a rolled-back preview goes before its capability |
| Compositor.CompositorService.EndCapability | src/compositord/compositor_service.cpp:1612-1625 | the terminal outcome is recorded and the capability gone |
| Compositor.CompositorService.HandleDisplayConfirmationTimeout | src/compositord/compositor_service.cpp:151-157 | an installed capability is terminated as expired, and gone when nothing fails; nothing is committed |
| Compositor.CompositorService.HandleDisplayOwnerLoss | src/compositord/compositor_service.cpp:159-165 | the loss of the owner, and of nobody else, terminates the capability; nothing is committed |
| Compositor.CompositorService.RefreshManagementStatus | src/compositord/compositor_service.cpp:2842-2871 | a poll keeps a capability only if the publisher proved its target exact, and terminates it as reverted otherwise; without one it mirrors the status and calls neither party to change anything |
| Compositor.CompositorService.Interrupted | src/compositord/compositor_service.cpp:1432-1459 | timers, owner loss and polls during a blocking call keep every invariant, and the installed capability can only move towards its end |
| Compositor.CompositorService.DisplayOwnerStillPresent | src/compositord/compositor_service.cpp:1432-1459 | a blocking query, with any number of events in between; positive only behind the answer that this owner is present |
| Compositor.CompositorService.CheckPreview | src/compositord/compositor_service.cpp:766-823 | only a writable, exact current base with an accepted profile passes, before the first effect; without a fault each such base does |
| Compositor.CompositorService.StageDisplay | src/compositord/compositor_service.cpp:826-889 | a complete generation of the next revision that needs only a reload is staged beside the current one, or the attempt ends settled or unreconciled; without a fault it is staged |
| Compositor.CompositorService.ActivatePreview | src/compositord/compositor_service.cpp:892-977 | either live, qualified, in the runtime of the baseline, with the same displays realizing the profile and the target proved exact, or rolled back and aborted, or unreconciled; without a fault, while the displays keep still, it is live |
| Compositor.CompositorService.InstallCapability | src/compositord/compositor_service.cpp:984-1011 | a fresh capability with its own serial and token |
| Compositor.CompositorService.StillHeld | src/compositord/compositor_service.cpp:1012-1067 | held means that the very capability is still installed, its owner present and then in time; otherwise it is terminated |
| Compositor.CompositorService.ProveOwner | src/compositord/compositor_service.cpp:1012-1084 | in time, owner present, in time again; a caller that is gone or late gets the preview reverted |
| Compositor.CompositorService.PreviewDisplayConfiguration | src/compositord/compositor_service.cpp:753-1096 | a token comes with a new, unterminated capability of the caller over a live generation that is not committed, and differs from the last one; it stands for the whole chain of answers in their order: accepted displays, a complete and qualified generation of the next revision, its activation in the runtime of those displays, the same displays realizing the profile, the exact target, the owner in time; without a fault, while the displays keep still, a permitted call gets one, and without a token no capability stands |
| Compositor.CompositorService.ProveConfirmable | src/compositord/compositor_service.cpp:1119-1266 | positive only behind the deadline, the displays of the baseline realizing the profile, the exact target, the deadline, the owner and the deadline, in this order; otherwise the capability is terminated |
| Compositor.CompositorService.ConfirmDisplayConfiguration | src/compositord/compositor_service.cpp:1119-1335 | success means that the previewed generation is committed, running and settled and its capability confirmed, behind the whole chain of answers in their order, displays included; a call of anybody else or with another token has no effect, and one that fails leaves the capability terminated; without a fault, while the displays keep still, the owner succeeds; a repeated call gets the same answer and changes nothing |
| Compositor.CompositorService.CommitDisplay | src/compositord/compositor_service.cpp:1267-1307 | no rollback and no abort once the decision may exist; without one the preview is reverted |
| Compositor.CompositorService.FinalizeDisplay | src/compositord/compositor_service.cpp:1309-1335 | a committed preview is finalized or the service stops |
| Compositor.CompositorService.RevertDisplayConfiguration | src/compositord/compositor_service.cpp:1337-1358 | only the owner reverts, exactly as a timeout would; success leaves the prior state committed, running and settled; a call of anybody else has no effect, and a repeated one the same answer |
| Compositor.CompositorService.ReplaceSnapshot | src/compositord/compositor_service.cpp:411-482 | never touches the live side; a new revision only outside a preview, from the current revision, and respecting what the shared visual settings control; the exact retry of the previous token returns the state unchanged; without a fault every permitted call and every exact retry succeeds |
| Compositor.CompositorService.Apply | src/compositord/compositor_service.cpp:484-564 | success and any call to the two parties need the current revision, a managed side and a desired state the shared visual settings allow; success with the service available means that exactly the desired state is applied, live and settled behind a qualified generation; without a fault every such call succeeds |
| Compositor.CompositorService.RecoverDefaults | src/compositord/compositor_service.cpp:566-614 | the same for exactly the safe defaults as the next revision, with no regard to the shared visual settings |
| Compositor.CompositorService.AdoptManagedConfiguration | src/compositord/compositor_service.cpp:616-682 | adoption goes through the same commit, from an unmanaged entrypoint that is as the caller expects: of that digest, or absent; without a fault every such call succeeds |
| Compositor.CompositorService.StillOwned | src/compositord/compositor_service.cpp:1666-1696 | ownership of a group ends exactly when its part of the projection changed |
| Compositor.CompositorService.SharedVisualSourceChanged | src/compositord/compositor_service.cpp:1666-1696 | a changed source gives up ownership of exactly the groups whose part changed, and with the last of them the outstanding apply |
| Compositor.CompositorService.OwnCandidate | src/compositord/compositor_service.cpp:2090-2204 | the candidate is the desired state with exactly the edits that the policy needs and that are known, not blocked and possible, and a group fails exactly otherwise |
| Compositor.CompositorService.SaveOwnCandidate | src/compositord/compositor_service.cpp:2205-2259 | the candidate is saved as the next revision, always when nothing fails, and marked for activation exactly when its base was the applied, live one |
| Compositor.CompositorService.ReconcileSharedVisual | src/compositord/compositor_service.cpp:1994-2465 | what it makes applied is the applied state before it with its own edits, and follows the policy; during a preview it calls nobody; without a fault an applied state that can be edited to what the policy wants ends up so edited, applied and live |
| Compositor.CompositorService.ActivateOwn | src/compositord/compositor_service.cpp:2399-2465 | what is prepared is a verified, owned and unblocked revision authored from the applied state; a user draft is never activated; without a fault such a revision is applied |
| Compositor.CompositorService.ClientCall | src/compositord/compositor_service.cpp:411-1358 | any call with any arguments keeps every invariant; on a fail-closed service it has no effect on authority, backend or disk |
| Compositor.CompositorService.BackgroundEvent | src/compositord/compositor_service.cpp:151-165 | any timer, signal, poll or reconciliation likewise |
| Compositor.CompositorService.Serve | src/compositord/compositor_service.cpp:1398-1420 | any run of calls and events: invariants throughout, and fail-closed is absorbing |
| Compositor.Restarts | src/compositord/activation_backend.cpp:442-532 | any number of lives, each dying after any write: the next start always finds the pending bridge's target or prior committed, or no bridge and matching ownership |
| PackageStore.UnnamedIsInvisible | src/componentd/user_package_store.cpp:755-869 | a version directory no receipt names does not affect what loads |
| PackageStore.MayAppear | src/componentd/user_package_store.cpp:755-869 | an unloaded component can appear only as the report its receipt holds |
| PackageStore.TrashIsInvisible | src/componentd/user_package_store.cpp:755-869 | staging and trash never load |
| PackageStore.CatalogMeans | src/componentd/user_package_store.cpp:755-869 | a package loads exactly when its own receipt names it, it is not built in, and a tree that satisfies the receipt lies at its version |
| PackageStore.BeforeOrAfter | src/componentd/user_package_store.cpp:1179-1238 | until the receipt is written the store loads as the catalog before or after, whatever state the new version directory is in |
| PackageStore.ReceiptCommits | src/componentd/user_package_store.cpp:1239-1250 | writing the receipt is the commit point |
| PackageStore.ReceiptRetires | src/componentd/user_package_store.cpp:1393-1406 | moving the receipt away removes exactly its component |
| PackageStore.SmallerIsLighter | src/componentd/user_package_store.cpp:838-866 | part of a catalog weighs less, and as much only if it is all of it |
| PackageStore.RoomIsExact | src/componentd/user_package_store.cpp:1115-1128 | the space check agrees with the limit on the resulting catalog whenever the current one fits |
| PackageStore.RoomMeansClear | src/componentd/user_package_store.cpp:1115-1128 | with room, a component left out of the load cannot be the package being installed |
| PackageStore.OneReportPerDigest | src/componentd/user_package_store.cpp:1096-1112 | a loaded package with the same digest is the same report |
| PackageStore.PublishingIsSafe | src/componentd/user_package_store.cpp:1179-1250 | all states passed while publishing load as before or after |
| PackageStore.UserPackageStore.Load | src/componentd/user_package_store.cpp:755-869 | at most 511 regular receipts; the entries are part of what the receipts and trees agree on, all of it exactly when that fits in 512 MiB, and nothing is left out that would still have fitted |
| PackageStore.UserPackageStore.RemoveEntry | src/componentd/user_package_store.cpp:439-459 | removal passes only through partial contents of that one entry |
| PackageStore.UserPackageStore.RemoveVersion | src/componentd/user_package_store.cpp:633-652 | removing an unnamed version never changes the catalog, at any step |
| PackageStore.UserPackageStore.Examine | src/componentd/user_package_store.cpp:1002-1140 | every refusal before the first change, each in exactly its case; what proceeds may be installed |
| PackageStore.UserPackageStore.Materialize | src/componentd/user_package_store.cpp:1142-1177 | inspected content reaches its own staging directory, or nothing new remains when the discarding succeeds |
| PackageStore.UserPackageStore.Publish | src/componentd/user_package_store.cpp:1198-1238 | success leaves at the destination content that validates for the report; a failure that is not followed by another leaves there what was there |
| PackageStore.UserPackageStore.Exchange | src/componentd/user_package_store.cpp:1198-1228 | the content there goes to the trash and the staged one to its place, or comes back |
| PackageStore.UserPackageStore.Retire | src/componentd/user_package_store.cpp:1205-1213 | a tree that does not validate is moved to the trash |
| PackageStore.UserPackageStore.RestoreRetired | src/componentd/user_package_store.cpp:1214-1228 | the retired tree returns to an empty place, with nothing else changed |
| PackageStore.UserPackageStore.Stage | src/componentd/user_package_store.cpp:1142-1238 | no receipt changes before the commit |
| PackageStore.UserPackageStore.Commit | src/componentd/user_package_store.cpp:1239-1250 | exactly the receipt is written, or the publication is undone and what it retired is back |
| PackageStore.UserPackageStore.CleanUp | src/componentd/user_package_store.cpp:1250-1292 | what follows a commit never shows; without a fault only this version remains and the retired tree is gone |
| PackageStore.UserPackageStore.Install | src/componentd/user_package_store.cpp:1002-1292 | at every step the catalog is the one before or the one with the package; other components never change; success without a fault leaves exactly this version under its root and nothing staged or in the trash; with room and no fault it succeeds, be it a first installation, an upgrade or a repair, and each refusal is given in exactly its case; a failure that is not followed by another leaves receipts and versions as they were |
| PackageStore.UserPackageStore.Prune | src/componentd/user_package_store.cpp:611-654 | every version beside the current goes, with the catalog fixed at every step |
| PackageStore.UserPackageStore.RemoveVersions | src/componentd/user_package_store.cpp:633-654 | exactly the kept versions remain |
| PackageStore.UserPackageStore.Remove | src/componentd/user_package_store.cpp:1294-1428 | at every step the catalog is the one before or the one without the component; without a fault a component that is loaded, not built in, of the expected digest and without dependents is removed, and every other case gets its own error, in the order of the source; success leaves neither receipt nor root and keeps all others; a failure that is not followed by another leaves receipts and versions as they were |
| PackageStore.UserPackageStore.Retract | src/componentd/user_package_store.cpp:1393-1428 | the receipt goes before the content; if the content cannot follow, the receipt comes back |
| PackageStore.UserPackageStore.EmptyRetired | src/componentd/user_package_store.cpp:1416-1428 | the retired receipt and content are removed invisibly, and without a fault nothing of them is left |
| PackageStore.UserPackageStore.Recover | src/componentd/user_package_store.cpp:871-1000 | the catalog is the same at every step; staging, trash and what removals retired are emptied; without a fault it succeeds, an orphaned root loses every version and a committed one all but its receipt's; a root is left as it was where the receipt cannot be read, is of another component or names a version that is not there |
| PackageStore.UserPackageStore.ClearTransactions | src/componentd/user_package_store.cpp:883-900 | staging, trash and retired roots and receipts are emptied, exactly when nothing is refused |
| PackageStore.UserPackageStore.Sweep | src/componentd/user_package_store.cpp:902-1000 | per root: an orphan loses every version, a committed one all but its own, and one whose receipt is not to be relied on stays as it is |
| PackageStore.UserPackageStore.SweepComponent | src/componentd/user_package_store.cpp:938-998 | one component root, the others untouched |
| PackageStore.Restart | src/componentd/user_package_store.cpp:684-740 | a new process recovers without changing the catalog and loads all of it; an answer means nothing staged or retired is left; if nothing was refused it answers, and orphaned and committed roots hold only what a receipt names |
| PackageStore.InstallCrashRestart | src/componentd/user_package_store.cpp:1002-1292 | an installation that dies anywhere, then a new process: exactly the catalog before or after; if nothing was refused it answers and nothing staged, retired, orphaned or superseded is left |
| PackageStore.RemoveCrashRestart | src/componentd/user_package_store.cpp:1294-1428 | a removal that dies anywhere, then a new process: exactly the catalog before or after; if nothing was refused it answers and nothing staged, retired, orphaned or superseded is left |
| UnicodeText.Utf8RoundTrip | src/compositord/canonical_json.cpp:1140-1160 | decoding inverts encoding on every text without lone surrogates |
| UnicodeText.OnlyEncodingsDecode | src/compositord/canonical_json.cpp:1157-1168 | nothing but the encoding of well-formed text is decoded, so no longer form, no surrogate and no cut sequence |
| UnicodeText.WellFormedMeans | src/compositord/canonical_json.cpp:96-120 | text is well formed exactly when every surrogate is one half of a pair |
| CanonicalJson.PiecesAre | src/compositord/canonical_json.cpp:796-890 | one piece of a string: no bare control character, no half of a pair, the eight short escapes, and four hexadecimal digits of either case that make a character alone or with the escape behind them |
| CanonicalJson.NumbersWritten | src/compositord/canonical_json.cpp:174-223 | a number is written exactly when a finite double equals it, and that double is |
| CanonicalJson.TextsArePermitted | src/compositord/canonical_json.cpp:79-150 | a text is valid exactly without a lone surrogate and, under the receipt policy, when it is its own normal form and no character of it is forbidden |
| UnicodeText.WellFormedAppend | src/compositord/canonical_json.cpp:79-150 | well-formed texts concatenate, and so do their bytes |
| UnicodeText.CompareKeys | src/compositord/canonical_json.cpp:66-77 | true exactly when the left key is a proper prefix of the right one or has the smaller code unit where they first differ |
| UnicodeText.LessMeans | src/compositord/canonical_json.cpp:66-77 | the order behind the theorems is that one: a proper prefix first, then the first code unit that differs |
| UnicodeText.FormsOfScalars | src/compositord/canonical_json.cpp:431-438 | the bytes and surrogates at the limits of each UTF-8 form |
| UnicodeText.LessIsTotal | src/compositord/canonical_json.cpp:66-77 | the key order is total |
| UnicodeText.LessIsTransitive | src/compositord/canonical_json.cpp:66-77 | the key order is transitive |
| UnicodeText.SortedIsUnique | src/compositord/canonical_json.cpp:499-501 | a set of keys has one sorted sequence |
| UnicodeText.SortKeys | src/compositord/canonical_json.cpp:499-501 | sorting gives exactly that sequence |
| CanonicalJsonInversion.SoundCodecExists | src/compositord/canonical_json.cpp:229-254 | pairs of conversions between finite binary64 numbers and shortest texts that invert each other exist, so the theorems over all of them are about something |
| CanonicalJsonInversion.NumberReadsBack | src/compositord/canonical_json.cpp:975-1066 | a number token of the grammar is read whole and becomes the number it shows |
| CanonicalJsonInversion.TextReadsBack | src/compositord/canonical_json.cpp:782-904 | escaped text reads back as itself under the text policy |
| CanonicalJsonInversion.ValueReadsBack | src/compositord/canonical_json.cpp:615-652 | every encodable value reads back from its rendering, with its count and depth |
| CanonicalJsonInversion.ArrayReadsBack | src/compositord/canonical_json.cpp:734-780 | arrays, item by item |
| CanonicalJsonInversion.ObjectReadsBack | src/compositord/canonical_json.cpp:654-732 | objects, member by member in key order |
| CanonicalJsonInversion.RenderIsWellFormed | src/compositord/canonical_json.cpp:402-449 | no lone surrogate is ever rendered from a valid text |
| CanonicalJsonInversion.PlainIsAlike | src/compositord/canonical_json.cpp:379-400 | a value whose numbers are replaced by what is written for them renders alike and is as large and as deep |
| CanonicalJsonInversion.NumberIsKept | src/compositord/canonical_json.cpp:174-223 | what is written for a permitted number, made from a double or from a 64-bit integer, is worth what the number is |
| CanonicalJsonInversion.NumbersDecide | src/compositord/canonical_json.cpp:174-223 | permitted numbers are written as the same double exactly when they are equal, and what equals a permitted number is permitted |
| CanonicalJsonInversion.SameDecides | src/compositord/canonical_json.cpp:337-400 | against an encodable value: the values equal to it, and no others, are encodable with the same plain form |
| CanonicalJsonInversion.PlainIsSame | src/compositord/canonical_json.cpp:379-400 | the plain form of an encodable value has its numbers |
| CanonicalJsonInversion.ParseInvertsSerialize | src/compositord/canonical_json.cpp:1099-1193 | every object the serializer accepts is parsed back from its bytes under the same framing, policy and limits, with every number worth what it was |
| CanonicalJsonInversion.AcceptedIsCanonical | src/compositord/canonical_json.cpp:1160-1193 | every accepted byte string is the serialization of its result |
| CanonicalJsonInversion.SerializeDecides | src/compositord/canonical_json.cpp:269-303 | against a serialized value: exactly the values that are equal, number by number, have the same bytes |
| CanonicalJsonInversion.SerializerAccepts | src/compositord/canonical_json.cpp:269-335 | for an encodable value within the value limit only the byte limit refuses |
| Binary64Numbers.ExactlyRepresentableDecides | src/compositord/canonical_json.cpp:160-172 | the mask test holds exactly for a 53-bit significand times a power of two |
| Binary64Numbers.CastIsExact | src/compositord/canonical_json.cpp:174-213 | a 64-bit integer that passes the mask test is cast to a double of the same value |
| Binary64Numbers.BitsOfSmallIntegers | src/compositord/canonical_json.cpp:174-213 | the bits of 0, 1, -1, 2 and 3 in the interchange format |
| Binary64Numbers.MaskIsExact | src/compositord/canonical_json.cpp:160-172 | the mask test refuses exactly the 64-bit integers that no finite double equals |
| Binary64Numbers.ValueIsInjective | src/compositord/canonical_json.cpp:214-227 | different finite doubles other than negative zero are different numbers |
| CanonicalJson.EscapesAreCanonical | src/compositord/canonical_json.cpp:402-449 | the five short escapes, a backslash before a quotation mark or a backslash, four lower-case hexadecimal digits for the other controls, and every other unit as it is |
| CanonicalJson.TextIsUnitByUnit | src/compositord/canonical_json.cpp:402-449 | a string is its units, each escaped, between quotation marks |
| CanonicalJson.LiteralsAreCanonical | src/compositord/canonical_json.cpp:337-400 | the bytes of null, true and false, and that a number is written as its double, negative zero as zero |
| CanonicalJson.ArraysAreCanonical | src/compositord/canonical_json.cpp:451-479 | the bytes of arrays around and between the items |
| CanonicalJson.ObjectsAreCanonical | src/compositord/canonical_json.cpp:481-514 | the bytes of an object: members in key order, a key before the longer one it begins |
| CanonicalJson.LimitsCount | src/compositord/canonical_json.cpp:337-377 | the depth limit counts nested arrays and the value limit every value |
| CanonicalJson.NumberEnds | src/compositord/canonical_json.cpp:975-1050 | every number of the grammar is passed whole, whatever its parts, and no more |
| CanonicalJsonCodec.Serializer.WriteString | src/compositord/canonical_json.cpp:402-449 | appends exactly the quoted, escaped bytes, or fails exactly when text or limit forbid it; the escapes are those of `EscapesAreCanonical` |
| CanonicalJsonCodec.Serializer.WriteValue | src/compositord/canonical_json.cpp:337-377 | appends exactly the rendering and counts exactly its values, or fails exactly when it is not encodable or does not fit |
| CanonicalJsonCodec.Serializer.WriteNumber | src/compositord/canonical_json.cpp:379-400 | appends the shortest text of the double that equals the number, or fails exactly when there is none or it does not fit |
| CanonicalJsonCodec.Serializer.WriteArray | src/compositord/canonical_json.cpp:451-479 | likewise for arrays |
| CanonicalJsonCodec.Serializer.WriteObject | src/compositord/canonical_json.cpp:481-514 | likewise for objects, in key order |
| CanonicalJsonCodec.Reader.SkipWhitespace | src/compositord/canonical_json.cpp:578-588 | stops at the first character that is no white space |
| CanonicalJsonCodec.Reader.ReadHexCodeUnit | src/compositord/canonical_json.cpp:906-938 | four hexadecimal digits give their code unit, anything else fails |
| CanonicalJsonCodec.Reader.ReadString | src/compositord/canonical_json.cpp:782-904 | reads as the grammar of strings says, with the position exactly behind it |
| CanonicalJsonCodec.Reader.ScanNumber | src/compositord/canonical_json.cpp:975-1050 | advances over exactly the number token |
| CanonicalJsonCodec.Reader.ReadNumber | src/compositord/canonical_json.cpp:975-1066 | the number the token shows, or failure |
| CanonicalJsonCodec.Reader.ReadLiteral | src/compositord/canonical_json.cpp:940-957 | the literal or failure |
| CanonicalJsonCodec.Reader.ReadValue | src/compositord/canonical_json.cpp:615-652 | position, failure, value and count agree with the grammar |
| CanonicalJsonCodec.Reader.ReadArray | src/compositord/canonical_json.cpp:734-780 | likewise for arrays |
| CanonicalJsonCodec.Reader.ReadObject | src/compositord/canonical_json.cpp:654-732 | likewise for objects, duplicate names refused |
| CanonicalJsonCodec.Reader.Run | src/compositord/canonical_json.cpp:533-565 | a whole text with an object at its root |
| CanonicalJsonCodec.Serialize | src/compositord/canonical_json.cpp:1089-1097 | the loops produce exactly the framed canonical bytes or refuse |
| CanonicalJsonCodec.ParseCanonicalObject | src/compositord/canonical_json.cpp:1099-1193 | the loops accept exactly the canonical texts |
| PackageBundle.BundleRoundTrip | src/component/component_package_bundle.cpp:233-382 | reading inverts writing on a valid file list exactly when no path holds a lone surrogate |
| PackageBundle.AcceptedWasWritten | src/component/component_package_bundle.cpp:269-382 | the reader accepts only what the writer produces from a valid list |
| PackageBundle.FormatOfBundles | src/component/component_package_bundle.cpp:233-266 | the bytes of a bundle: four for the count, then per file two for the length of the path, the path, eight for the length of the contents, and these, numbers with the highest byte first |
| PackageBundle.FormatOfPreimages | src/component/component_package_bundle.cpp:210-229 | the bytes the digest is taken over, in the order of the files |
| PackageBundle.SafePathsAre | src/component/package_inspection_report.cpp:80-115 | a path is canonical exactly when it is made of 1 to 32 safe segments between single slashes and meets the other conditions |
| PackageBundle.LimitsOfLists | src/component/component_package_bundle.cpp:95-128 | 2 to 512 files of at most 32 MiB each and 128 MiB together, all at canonical and permitted paths |
| PackageBundle.OrderlyBehind | src/component/component_package_bundle.cpp:95-128 | the one-by-one checks decide the pairwise conditions |
| PackageBundle.PreimageIsInjective | src/component/component_package_bundle.cpp:384-398 | between lists without lone surrogates, equal digest preimages mean equal lists |
| PackageBundle.FramesDecide | src/component/component_package_bundle.cpp:210-229 | two lists have equal frames exactly when they agree in the UTF-8 bytes of every path and in all contents |
| PackageBundle.PreimageDecides | src/component/component_package_bundle.cpp:384-398 | two valid lists have equal digest preimages exactly when they agree in the UTF-8 bytes of every path and in all contents |
| PackageBundle.LoneSurrogatesCollide | src/component/component_package_bundle.cpp:384-398 | for any two high surrogates, two different valid lists of a manifest and one payload file with the same bundle and the same preimage |
| PackageBundle.ValidateFiles | src/component/component_package_bundle.cpp:95-128 | true exactly for valid lists: order, distinct folded paths, limits |
| PackageBundle.Device.WriteAll | src/component/component_package_bundle.cpp:39-51 | short writes are repeated until all bytes are written, or it fails |
| PackageBundle.Device.ReadExact | src/component/component_package_bundle.cpp:53-64 | exactly the bytes asked for, or failure |
| PackageBundle.WriteBundle | src/component/component_package_bundle.cpp:233-266 | success appends exactly the encoding of a valid list |
| PackageBundle.ReadBundle | src/component/component_package_bundle.cpp:269-382 | without device faults it accepts exactly the encodings, with nothing trailing |
| PackageBundle.DerivePackageDigest | src/component/component_package_bundle.cpp:384-398 | the hash of the preimage, exactly for valid lists |
| PackageBundle.HashFile | src/componentd/user_package_store.cpp:134-171 | the streamed chunks feed the package hash exactly one frame, and the file hash the contents; it fails exactly on a size that differs or a read fault |
| PackageBundle.StreamFile | src/componentd/user_package_store.cpp:156-168 | every chunk reaches both hashes in order |
| PackageBundle.HashInstalledTree | src/componentd/user_package_store.cpp:250-274 | hashing an installed tree feeds what the bundle digest is taken over; without a read fault it succeeds exactly when sizes and hashes are those of the receipt |
| DecimalNumbers.NormalFormKeepsValue | src/component/strict_json.cpp:32-117 | the normal form of every grammatical token that has one denotes the same number |
| DecimalNumbers.TokensAreWorth | src/component/strict_json.cpp:552-601 | two tokens by their text and what they are worth |
| DecimalNumbers.WhatHasNoNormalForm | src/component/strict_json.cpp:79-117 | there is no normal form exactly for a number other than zero with an exponent, as given or shifted, beyond 64 bits |
| DecimalNumbers.NormalFormsDecide | src/component/strict_json.cpp:21-30 | two normal forms are equal exactly when their values are |
| DecimalNumbers.ComparingIsExact | src/component/strict_json.cpp:598-612 | comparing normal forms of tokens is comparing values |
| DecimalNumbers.FindMark | src/component/strict_json.cpp:43-49 | the exponent mark is found where the token has it |
| DecimalNumbers.GatherDigits | src/component/strict_json.cpp:51-65 | digits without the point and the number behind it |
| DecimalNumbers.TrimLeading | src/component/strict_json.cpp:67-77 | leading zeros go |
| DecimalNumbers.TrimTrailing | src/component/strict_json.cpp:98-110 | trailing zeros go and are counted |
| DecimalNumbers.ToLongLong | src/component/strict_json.cpp:79-87 | the exponent, exactly when 64 bits hold it |
| DecimalNumbers.Normalize | src/component/strict_json.cpp:32-117 | the loops compute the normal form, with no overflow in 64-bit steps |
| DecimalNumbers.PartsAreToken | src/component/strict_json.cpp:552-601 | whatever the scan passes is one whole token of the grammar, and what follows does not go on with it |
| DecimalNumbers.TokenHasParts | src/component/strict_json.cpp:552-601 | every token has its parts where the scan looks for them |
| DecimalNumbers.TokenIsUnique | src/component/strict_json.cpp:552-601 | at most one token stands at a place |
| DecimalNumbers.ScanNumber | src/component/strict_json.cpp:552-601 | the end of the one token that stands there, or a failure exactly when none does |
| DecimalNumbers.ReadNumber | src/component/strict_json.cpp:552-623 | invalid exactly when no token stands there that converts; accepted only when the persisted text denotes the same value, and refused as lossy only when it does not or cannot be compared |
| FixedRecordCapture.BudgetsAddUp | src/compositord/dormant_fixed_record_capture.cpp:94-151 | 11637 calls and 41976321 bytes are the sums over both passes |
| FixedRecordCapture.CaptureIsOneView | src/compositord/dormant_fixed_record_capture.cpp:846-1014 | a capture is one view: all reports about a record or the root are equal, a record with a field was read twice and gave it both times, one without was reported missing by two lookups of each pass and never found, no two present records are one file |
| FixedRecordCapture.CaptureIsPrivate | src/compositord/dormant_fixed_record_capture.cpp:344-380 | what was captured came from a directory of mode 0700 and regular files of mode 0600 with one name, on its device and of its owner, each as long as its field and its bound say |
| FixedRecordCapture.SafeMeans | src/compositord/dormant_fixed_record_capture.cpp:344-380 | a directory is safe exactly when it and its records are so, and no two records are one file |
| FixedRecordCapture.AliasIsBlamed | src/compositord/dormant_fixed_record_capture.cpp:743-756 | an alias is reported exactly of a record that is the same file as an earlier one |
| FixedRecordCapture.CaptureFixedRecords | src/compositord/dormant_fixed_record_capture.cpp:760-1060 | for every schedule of interruptions, short reads and changes: at most 11637 calls, 41976321 bytes and 11 closes; every descriptor closed once; a failed close fails the capture and nothing else reports it; the budget failure is not reached; a capture is faithful and made exactly these looks in this order: the directory, each record in turn between two looks at the directory, the directory, all of that again, each present record once more by descriptor and name, the directory; and what answers whole and unchanged throughout is captured as it is exactly when it is safe, and otherwise refused for a reason that is true of it |
| FixedRecordCapture.Observer.ProofAttempt | src/compositord/dormant_fixed_record_capture.cpp:321-342 | each call is counted before it is made |
| FixedRecordCapture.Observer.CloseOnce | src/compositord/dormant_fixed_record_capture.cpp:382-398 | the descriptor is given up before its one close attempt; the first failed one is the failure kept |
| FixedRecordCapture.Observer.RootGuard | src/compositord/dormant_fixed_record_capture.cpp:435-448 | positive only when the root is reported as at the start |
| FixedRecordCapture.Observer.BoundedPread | src/compositord/dormant_fixed_record_capture.cpp:451-469 | never returns more than asked, and counts it |
| FixedRecordCapture.Observer.ReadAll | src/compositord/dormant_fixed_record_capture.cpp:640-668 | exactly the size reported, within the attempts of the record, whatever is short or interrupted |
| FixedRecordCapture.Observer.ProbeEnd | src/compositord/dormant_fixed_record_capture.cpp:669-687 | the byte behind the record must be absent |
| FixedRecordCapture.Observer.ProveRecord | src/compositord/dormant_fixed_record_capture.cpp:600-721 | all reports about an opened record agree and its contents end where its size says |
| FixedRecordCapture.Observer.CaptureOpened | src/compositord/dormant_fixed_record_capture.cpp:586-721 | kept open in the first pass, closed in the second, closed on every failure |
| FixedRecordCapture.Observer.CaptureOne | src/compositord/dormant_fixed_record_capture.cpp:543-721 | a record is missing at two lookups, or present with stable reports and a whole read; nothing stays open on failure |
| FixedRecordCapture.Observer.HasIdentityAlias | src/compositord/dormant_fixed_record_capture.cpp:743-756 | decides whether the record just captured is one of those before it |
| FixedRecordCapture.Observer.FirstPass | src/compositord/dormant_fixed_record_capture.cpp:846-888 | exactly five observations, each between two looks at the directory that find it as at the start |
| FixedRecordCapture.Observer.SecondPass | src/compositord/dormant_fixed_record_capture.cpp:905-967 | exactly the same looks again, with the same outcomes |
| FixedRecordCapture.Observer.FinalChecks | src/compositord/dormant_fixed_record_capture.cpp:968-1000 | exactly two more looks at each present record, by its held descriptor and by its name |
| FixedRecordCapture.Observer.ExamineRoot | src/compositord/dormant_fixed_record_capture.cpp:799-843 | the directory is accepted only with both flag words checked and when it is private to the caller |
| FixedRecordCapture.Observer.Passes | src/compositord/dormant_fixed_record_capture.cpp:846-1014 | both passes within the budgets |
| FixedRecordCapture.Observer.CloseAll | src/compositord/dormant_fixed_record_capture.cpp:1015-1032 | one close for every descriptor left |
| FixedRecordCapture.Observer.Conclude | src/compositord/dormant_fixed_record_capture.cpp:1033-1060 | a clean-up failure decides, then the first failure, then the capture |
| InspectorLauncher.UnitNamesDiffer | src/componentd/component_inspector_launcher.cpp:509-518 | different tokens have different unit names, each the token between a fixed prefix and suffix |
| InspectorLauncher.EndsOnce | src/componentd/component_inspector_launcher.cpp:634-651 | an accepted start is completed at most once, and never after a cancellation |
| InspectorLauncher.EndsWereAccepted | src/componentd/component_inspector_launcher.cpp:634-651 | what completes or is cancelled was accepted before and had not ended |
| InspectorLauncher.RecordingIsInverse | src/componentd/component_inspector_launcher.cpp:716-729 | recording a job path keeps both maps inverse exactly when no other start has it and this start had none |
| InspectorLauncher.Launcher.Start | src/componentd/component_inspector_launcher.cpp:586-632 | accepted exactly when connected, well-formed, new and not after a failed subscription |
| InspectorLauncher.Launcher.SubmitStart | src/componentd/component_inspector_launcher.cpp:653-681 | a pending start is marked submitted and nothing else pending changes |
| InspectorLauncher.Launcher.EnsureSubscribed | src/componentd/component_inspector_launcher.cpp:731-746 | the subscription is awaited, with all bookkeeping intact |
| InspectorLauncher.Launcher.Cancel | src/componentd/component_inspector_launcher.cpp:784-808 | the start and its job path are gone, its unit stopped exactly when submitted |
| InspectorLauncher.Launcher.Complete | src/componentd/component_inspector_launcher.cpp:634-651 | the callback runs once, behind the removal of the start, and may itself start or cancel |
| InspectorLauncher.Launcher.StartReply | src/componentd/component_inspector_launcher.cpp:682-729 | a reply without a job path completes with an error; a recorded path keeps the maps inverse exactly when it is its own |
| InspectorLauncher.Launcher.SubscribeReply | src/componentd/component_inspector_launcher.cpp:748-782 | granted: every waiting start is submitted once; refused: every waiting start is completed or, by a callback, cancelled |
| InspectorLauncher.Launcher.JobRemoved | src/componentd/component_inspector_launcher.cpp:810-849 | completes the start of the job, known by its path or, before the reply, by its unit name; a signal that matches neither changes nothing |
| InspectorLauncher.Launcher.Serve | src/componentd/component_inspector_launcher.cpp:586-849 | given distinct live job paths and no token accepted while a reply for it is in flight, in every order of replies, signals, starts and cancellations the maps stay inverse and nothing waits for a decided subscription |
| InspectorLauncher.ReofferedTokenBreaksIndex | src/componentd/component_inspector_launcher.cpp:586-729 | start, cancel and start of one token with both replies outstanding: two distinct job paths leave the maps no longer inverse |
| InspectorLauncher.Launcher.ReplyTo | src/componentd/component_inspector_launcher.cpp:682-729 | under the same two conditions, an outstanding reply with a path of its own keeps the maps inverse |
| InspectionSessions.OneMoreIsWithin | src/componentd/component_inspection_sessions.cpp:911-916 | the checks before a session is added keep 8 in all and 2 per sender |
| InspectionSessions.HandedOutIsIdentified | src/componentd/component_inspection_sessions.cpp:1439-1454 | a session handed out is gone for good |
| InspectionSessions.HandedOutIsHoused | src/componentd/component_inspection_sessions.cpp:779-829 | the directory passes to the lease |
| InspectionSessions.Sessions.constructor | src/componentd/component_inspection_sessions.cpp:831-878 | a manager starts empty; one that owns the spool has removed every stale directory or counted it, one that does not never touches it |
| InspectionSessions.Sessions.Cleanup | src/componentd/component_inspection_sessions.cpp:466-492 | a directory is removed, or the failure is counted |
| InspectionSessions.Sessions.AddExpired | src/componentd/component_inspection_sessions.cpp:637-646 | the tombstone is added and, of more than 64, any may go to make room; with room none goes |
| InspectionSessions.Sessions.PruneExpired | src/componentd/component_inspection_sessions.cpp:648-656 | exactly the tombstones whose time has not come remain |
| InspectionSessions.Sessions.ExpireNow | src/componentd/component_inspection_sessions.cpp:1523-1553 | exactly the unexpired sessions remain; each of the others becomes a tombstone, all of them when they fit in 64 |
| InspectionSessions.Sessions.Begin | src/componentd/component_inspection_sessions.cpp:892-1139 | every quota and the directories hold for any outcome, including a completion before the call returns; a refusal leaves no session behind and has its own error; with fewer than 8 sessions, fewer than 2 of the caller, a free token and no fault a session of the caller begins, and it begins in no other case |
| InspectionSessions.Sessions.Launch | src/componentd/component_inspection_sessions.cpp:1108-1139 | a refused launch leaves no session and no directory, an accepted one leaves all sessions as they were, save for its own completion where that came first |
| InspectionSessions.Sessions.LauncherFinished | src/componentd/component_inspection_sessions.cpp:1141-1222 | a pending, unexpired session becomes complete exactly with loadable outputs and is gone otherwise |
| InspectionSessions.Sessions.Lookup | src/componentd/component_inspection_sessions.cpp:1224-1323 | the owner of an unexpired session, and nobody else, sees its state and digest; every refusal has its own error; a changed complete session fails, and all others are as they were |
| InspectionSessions.Sessions.TakeForInstall | src/componentd/component_inspection_sessions.cpp:1325-1455 | a session is handed out exactly to its owner, complete, unexpired, revalidated, with the expected digest and duplicated descriptors, and never again; every refusal has its own error, and of the unexpired sessions only a changed one is dropped |
| InspectionSessions.Sessions.HandOver | src/componentd/component_inspection_sessions.cpp:1439-1454 | session out, lease in, directory kept |
| InspectionSessions.Sessions.ReleaseArtifact | src/componentd/component_inspection_sessions.cpp:815-829 | the lease ends with its directory |
| InspectionSessions.Sessions.Cancel | src/componentd/component_inspection_sessions.cpp:1457-1504 | exactly the owner of an unexpired session cancels it; every refusal has its own error; all other unexpired sessions remain |
| InspectionSessions.Sessions.CancelAllForSender | src/componentd/component_inspection_sessions.cpp:1506-1521 | exactly the other senders' sessions remain |
| InspectionSessions.Sessions.Serve | src/componentd/component_inspection_sessions.cpp:892-1553 | over every run of calls, completions, ticks and lease ends: quotas, directories exactly those needed while clean-up works, no session handed out twice; without the spool nothing on disk changes |
| ZipPreflight.WalkIsForced | src/component-inspector/package_inspector.cpp:251-360 | a walk along pieces that carry their length passes only what begins every tiling |
| ZipPreflight.ExtraFieldsAreSupported | src/component-inspector/package_inspector.cpp:129-148 | true exactly when fields other than ZIP64 tile the area |
| ZipPreflight.FindEnd | src/component-inspector/package_inspector.cpp:206-225 | the last end record whose comment reaches the end of the bytes, if any |
| ZipPreflight.CheckCentral | src/component-inspector/package_inspector.cpp:264-326 | decides the entry's own fields, extra data, name and attributes |
| ZipPreflight.CheckLocal | src/component-inspector/package_inspector.cpp:328-357 | decides agreement with the local header in name, flags and method |
| ZipPreflight.TakeEntry | src/component-inspector/package_inspector.cpp:251-360 | an entry is passed exactly when it is complete, acceptable and newly named |
| ZipPreflight.WalkDirectory | src/component-inspector/package_inspector.cpp:246-362 | the entries passed tile the directory so far and begin every description; stopping early means there is none |
| ZipPreflight.DescriptionIsUnique | src/component-inspector/package_inspector.cpp:200-373 | at most one tiling describes an archive |
| ZipPreflight.ArchiveIsTiled | src/component-inspector/package_inspector.cpp:363-372 | accepted archives are local part, entries and end record without gaps, each with its signature; 2 to 512 entries, their raw names of 1 to 255 bytes, strictly decoded, distinct and distinct after folding; a local header comes first |
| ZipPreflight.PreflightCentralDirectory | src/component-inspector/package_inspector.cpp:200-373 | on all byte strings: accepted with exactly the entries of a description, refused only when none fits or its end does not fit 32 bits |
| ZipPreflight.PlainArchiveIsDescribed | src/component-inspector/package_inspector.cpp:200-373 | every archive of 2 to 512 entries, stored or deflated, without a Unix mode or with that of a regular file or directory as the name says, whose allowed names do not collide, is described, so it is accepted |
| ZipPreflight.KindsAreSafe | src/component-inspector/package_inspector.cpp:173-198 | from Unix, no kind or exactly a directory or regular file as the name says, without set-user, set-group and sticky bits; from elsewhere the directory bit, and no device |
| ZipPreflight.LinksAreRefused | src/component-inspector/package_inspector.cpp:264-326 | a symbolic link, an encrypted entry, another method or another volume is refused |
| ZipPreflight.EndRecordIsKnown | src/component-inspector/package_inspector.cpp:229-243 | one disk, as many entries on it as in all, 2 to 512 of them, and no size or offset that defers to ZIP64 |
| ZipPreflight.EntriesAreRead | src/component-inspector/package_inspector.cpp:361-362 | an entry is handed on with the bytes of its name, whether its path ends in a slash, and its method |
| ZipPreflight.NamesAreKnown | src/component-inspector/package_inspector.cpp:289-309 | a raw name has 1 to 255 bytes and no zero, decodes strictly, and is an allowed directory when it ends in a slash and a permitted file otherwise |
| ZipPreflight.FieldsAreKnown | src/component-inspector/package_inspector.cpp:268-280 | on one disk, named, stored or deflated, with allowed flags and no field that defers to ZIP64 |
| ZipPreflight.LocalHeadersAgree | src/component-inspector/package_inspector.cpp:328-350 | the local header of an entry repeats the bytes of its flags, method, name length and name inside the archive |
| ZipPreflight.FlagsAreKnown | src/component-inspector/package_inspector.cpp:119-128 | exactly the flags for deflate options, a data descriptor and UTF-8 names |
| ZipPreflight.BoundedSumIsExact | src/component-inspector/package_inspector.cpp:363-366 | in archives of up to 32 MiB that sum does not wrap |
| ZipPreflight.PreflightArchive | src/component-inspector/package_inspector.cpp:498-553 | a file of 1 byte to 32 MiB, read whole, passes exactly when a description fits it, with its entries |
| ZipPreflight.SumWrapsOnHugeArchives | src/component-inspector/package_inspector.cpp:363-366 | past four gibibytes the 32-bit sum wraps although the 64-bit bound holds |
| SettingsNormalization.OrderedIsStable | src/component/settings_schema.cpp:283-295 | ordering modifiers again changes nothing |
| SettingsNormalization.ModifiersAreRanked | src/component/settings_schema.cpp:283-295 | Ctrl, Alt, Shift, Super, Hyper, in this order, and exactly those chosen |
| SettingsNormalization.IntegersOnStep | src/component/settings_schema.cpp:783-822 | an integer setting takes exactly the whole numbers between its bounds that lie a multiple of the step above the minimum |
| SettingsNormalization.DecimalsOnStep | src/component/settings_schema.cpp:783-822 | a decimal one exactly the numbers between its bounds that are a whole number of steps above the minimum, up to a thousand-millionth of a step |
| SettingsNormalization.NumbersAndChoices | src/component/settings_schema.cpp:770-863 | a number passes unchanged exactly when it is allowed, a choice exactly when its normal form is the value of an option, a truth value always |
| SettingsNormalization.ColorsAreHexadecimal | src/component/settings_schema.cpp:876-887 | a number sign and six or eight hexadecimal digits, perhaps before a newline, and upper case |
| SettingsNormalization.BindingsAreMade | src/component/settings_schema.cpp:197-295 | a key binding is accepted exactly with different known modifiers and a key name of 1 to 64 units, and gives them in order |
| SettingsNormalization.NormalIsFixpoint | src/component/settings_schema.cpp:764-915 | an accepted value's normal form normalises to itself exactly when the normal form of the text given fits the bounds that are checked before normalisation |
| SettingsNormalization.KeyNameMayOutgrowItsBound | src/component/settings_schema.cpp:225-234 | a key name of 64 composition-excluded letters is accepted and its own normal form refused |
| SettingsNormalization.UpperIsStable | src/component/settings_schema.cpp:876-887 | an upper-case colour is a colour and stays as it is |
| SettingsSchema.CollectedMeans | src/component/settings_schema.cpp:1040-1065 | with unique keys the result is, key by key, the normal form of what was given or of the default |
| SettingsSchema.SettingsMean | src/component/settings_schema.cpp:1040-1065 | the keys are those of the scope that are given or have defaults applied, each with the normal form of the given value or of the default |
| SettingsSchema.NormalSettingsIsFixpoint | src/component/settings_schema.cpp:1018-1071 | the normaliser maps its own results to themselves exactly when the normal form of every key name and selection given fits |
| SettingsSchema.DefaultsSucceed | src/component/settings_schema.cpp:1018-1071 | for an accepted schema, empty input with defaults succeeds exactly when the normalised default key bindings fit |
| SettingsSchema.ConditionValueIsStable | src/component/settings_schema.cpp:990-1005 | a condition compares with a value its setting can take, on which normalisation is the identity |
| SettingsSchema.VisibilityIsAcyclic | src/component/settings_schema.cpp:972-990 | visibility references lead to strictly earlier settings |
| SettingsSchema.ChosenModifiers | src/component/settings_schema.cpp:247-279 | no error exactly for known, distinct modifier names |
| SettingsSchema.NormalizeKeybinding | src/component/settings_schema.cpp:197-295 | the loops accept exactly the permitted bindings and order their modifiers |
| SettingsSchema.NormalizeSettingValue | src/component/settings_schema.cpp:764-915 | the branches compute the normal form, and refuse with an error exactly where there is none |
| SettingsSchema.NormalizeSettings | src/component/settings_schema.cpp:1018-1071 | the loops compute the normal settings, and refuse with errors exactly where there are none |
| SchemaParser.SchemaGrows | src/component/settings_schema.cpp:962-1012 | a new key with a settled reference keeps the schema settled |
| SchemaParser.ReadIsSettled | src/component/settings_schema.cpp:917-1015 | what a schema is read as has unique keys, settled definitions whose defaults are normal values, and conditions on earlier settings of the same scope |
| SchemaParser.HeadsAre | src/component/settings_schema.cpp:362-460 | the fields every definition has, by name and limit |
| SchemaParser.OptionsAre | src/component/settings_schema.cpp:297-360 | one to 64 options of a value and a label and nothing else, with distinct values, taken in their normal form |
| SchemaParser.DefaultsAre | src/component/settings_schema.cpp:660-680 | the default is what its value becomes under the definition, and null for files and directories |
| SchemaParser.SchemasAre | src/component/settings_schema.cpp:917-960 | version 1 and at most 128 settings, and no other field |
| SchemaParser.ReadAt | src/component/settings_schema.cpp:962-1012 | a definition differs from what it is read as alone in the normalised condition only |
| SchemaParser.AcceptedDefaultsSucceed | src/component/settings_schema.cpp:1018-1071 | over an accepted schema as written: empty input with defaults succeeds exactly when the normal form of every default key name fits |
| SchemaParser.AcceptedDefaultMayBeRefused | src/component/settings_schema.cpp:225-234 | an accepted schema of one key binding whose default is 64 composition-excluded letters: its own defaults are refused |
| SchemaParser.Parser.RequiredText | src/component/settings_schema.cpp:71-106 | an error exactly when the text is missing, empty, too long, untrimmed or has disallowed characters |
| SchemaParser.Parser.RequiredInteger | src/component/settings_schema.cpp:128-151 | an error exactly when no integer in range is given |
| SchemaParser.Parser.ParseEnumOptions | src/component/settings_schema.cpp:297-360 | no error exactly for one to 64 well-formed options with distinct values, and then these options |
| SchemaParser.Parser.ParseNumberBounds | src/component/settings_schema.cpp:502-561 | no error exactly for ordered bounds and, if given, a positive step, all of the numeric type |
| SchemaParser.Parser.ParseLengths | src/component/settings_schema.cpp:562-602 | no error exactly for ordered length bounds in range, the lower one zero unless given |
| SchemaParser.Parser.ParseCondition | src/component/settings_schema.cpp:621-658 | no error exactly without a condition or with one of a key and a value and nothing else |
| SchemaParser.Parser.ParseDefault | src/component/settings_schema.cpp:660-680 | no error exactly when the default is accepted under the definition and null for files and directories |
| SchemaParser.Parser.ParseDefinition | src/component/settings_schema.cpp:362-682 | no error exactly when head, details, condition and default are all well formed, and then what they are read as |
| SchemaParser.Parser.ResolveCondition | src/component/settings_schema.cpp:975-1005 | no error exactly when the condition refers to an earlier setting of the same scope, of a comparable kind, with an accepted value |
| SchemaParser.Parser.ParseSettings | src/component/settings_schema.cpp:962-1012 | no error exactly when every definition is well formed, its key new and its condition resolved by those before it |
| SchemaParser.ParseSettingsSchema | src/component/settings_schema.cpp:917-1015 | accepted exactly when the fields are those of a schema with readable settings; its settings are then settled |
| PlacementValidation.CleanMeansDistinct | src/component/surface_plan.cpp:476-508 | no finding exactly when every known instance occurs at most once and nothing else occurs |
| PlacementValidation.CleanMeansPermutation | src/component/surface_plan.cpp:469-524 | no finding and nothing unplaced exactly for a permutation |
| PlacementValidation.Placed.PlanRegion | src/component/surface_plan.cpp:487-508 | the loop reports exactly the findings, marking known instances only |
| PlacementValidation.Placed.ConfigurationRegion | src/component/component_configuration.cpp:849-906 | the loop reports something exactly when there is a finding or a misplaced widget, marking everything |
| PlacementValidation.Placed.Unplaced | src/component/surface_plan.cpp:510-522 | adds nothing exactly when every instance is marked |
| PlacementValidation.ValidateRelationships | src/component/surface_plan.cpp:469-524 | no error exactly when all regions of all bars together are a permutation of the instances |
| PlacementValidation.ValidatePlacements | src/component/component_configuration.cpp:846-918 | no error exactly for a permutation of properly keyed instances with main-layout widgets nowhere else |
| PlacementValidation.OrderIsIrrelevant | src/component/surface_plan.cpp:474-476 | the order in which bars are visited does not matter |

## Left out

- Compositor.CompositorService.ReconcileSharedVisual: the border and spacing option catalogs, the status strings and the keys that remember a failed attempt are not modelled; whether that memory holds an attempt back comes in by two flags, so the theorem covers every choice but says nothing about how often an attempt is repeated.
- Compositor.CompositorService.OwnCandidate: the editors are functions of the document; that they edit only border, spacing and the protected rule is what their callers rely on and is not proved of their bodies.
- Compositor.CompositorService.Interrupted: timers, owner loss and polls run at the blocking calls only; a signal handler that calls back into the service at another point is not modelled.
- Compositor.CompositorService.ClientCall: D-Bus marshalling, property change signals, the catalog and snapshot getters and error texts are plumbing and left out; digests and requests are compared by arbitrary booleans.
- LiveBackend.LiveActivationBackend.ReconcileStartup: what the compositor runs after a restart whose target was already committed is not known, because the source does not reload then; a reload that somebody else asks of Hyprland is not modelled.
- LiveBackend.LiveActivationBackend.ConnectedDisplays: the input-device query has the same form and is left out; the topology is an arbitrary value.
- DurableWorld.ConfigurationAuthority.CommitApply: the concrete authority, `AtomicEntrypointPublisher` and `HyprlandIpcRuntime` are not part of this model; their headers are.
- PackageStore.UserPackageStore.Recover: files in the store's directories whose names are not component ids are not modelled, and emptying the two trash areas is one kind of step; the lock is the flag `leased`, and symbolic links appear as `Escaping` roots and `Unsafe` receipts.
- PackageStore.UserPackageStore.Install: equal package digests are taken to mean equal trees (`CollisionFree`).
- PackageStore.UserPackageStore.Load: settings schemas and warnings in the result are left out.
- CanonicalJsonCodec.Serialize: enumerators of framing and text policy outside their declared ranges are not modelled; paths and messages of errors are left out.
- CanonicalJsonInversion.ParseInvertsSerialize: the conversion of doubles to shortest text and back is any pair with `Sound`.
- PackageBundle.HashFile: the hash itself is a function of the bytes fed.
- PackageBundle.ReadBundle: creating the files of a bundle on disk is left to the store's model.
- DecimalNumbers.ReadNumber: the conversion to double and its persisted text are arbitrary functions; the rest of the strict parser is left out.
- FixedRecordCapture.CaptureFixedRecords: the checkpoints and injected faults of the test build, and the scrubbing of freed memory, are left out; an allocation may fail.
- InspectorLauncher.Launcher.Start: the sandbox property list and the texts of errors are left out; StopUnit is recorded, its reply ignored as in the source.
- InspectionSessions.Sessions.TakeForInstall: the re-hashing of the files is one arbitrary answer; the report's contents are left out.
- ZipPreflight.PreflightCentralDirectory: the text codec, path rules and folding are parameters; libzip's own reading and the comparison with it are left out.
- SettingsNormalization.NormalIsFixpoint: numbers are reals, so the rounding in the step test of non-integer settings is not modelled; it does not bear on the fixpoint, because numbers are returned unchanged.
- SchemaParser.ParseSettingsSchema: the strict JSON parse in front of it is left out; trimming and the class of disallowed characters are parameters.
- SettingsSchema.NormalizeSettings: error paths are left out; the codes are kept.
- PlacementValidation.ValidatePlacements: which widgets belong in the main layout is a set given to the pass; the rest of the configuration parser is left out.
- The compare-and-set reducer of the authority, the migration reducer and the adapters of captured records rest on frozen digests and parsers that are not part of this model.
- Field validation of component contracts, declarative documents, package integrity files and the system catalog would only add one-branch checks.

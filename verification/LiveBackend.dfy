/** `LiveActivationBackend`: drives the publisher and the runtime for one generation, undoes
    or finalizes it, and reconciles the two parties after a crash. */
module LiveBackend {
  import opened Options
  import opened ActivationProtocol
  import opened DurableWorld

  datatype Reason =
    | Fine
    | ApplyFailed
    | ActivationRequired
    | PersistenceFailed
    | EntrypointChanged
    | NeitherSide
    | ReloadFailed
    | VerificationFailed

  datatype ActivationResult = ActivationResult(
    success: bool,
    mayHaveOccurred: bool,
    reason: Reason,
    generation: Generation,
    runtimeIdentity: string,
    confirmedRequirement: Requirement,
    receipt: nat,
    status: ManagementStatus
  )

  datatype BackendResult = BackendResult(success: bool, reason: Reason, status: ManagementStatus)

  /** A generation is prepared and both parties still agree on the one before it. */
  predicate ReadyToPublish(d: Disk, g: Generation) {
    && g != ""
    && d.journal == Prepared(g)
    && d.bridge == None
    && d.entrypoint == d.committed
    && d.ownership == d.committed
  }

  /** The decision is (still) for the prior side of whatever bridge is pending. */
  predicate Undoable(d: Disk) {
    CrashSafe(d) && (d.bridge.Some? ==> Decision(d) == d.bridge.value.prior)
  }

  /** The target is live behind a bridge whose prior side is the committed generation. */
  ghost predicate TargetLive(d: Disk, receipt: nat, g: Generation) {
    && d.bridge == Some(Bridge(receipt, g, d.committed))
    && d.entrypoint == g
    && d.ownership == d.committed
  }

  /** What `Initialize` hands to startup reconciliation after a crash in a safe state. */
  predicate Startable(d: Disk, committed: Generation) {
    CrashSafe(d) && d.journal == NoJournal && d.committed == committed
  }

  ghost predicate Undone(d: Disk) {
    d.bridge == None && d.entrypoint == d.committed && d.ownership == d.committed
  }

  ghost predicate KeepsSafe(before: seq<Disk>, after: seq<Disk>) {
    AllCrashSafe(before) ==> AllCrashSafe(after)
  }

  lemma GrewSafely(before: seq<Disk>, after: seq<Disk>, allowed: set<Disk>)
    requires Grew(before, after, allowed)
    requires forall d <- allowed :: CrashSafe(d)
    ensures KeepsSafe(before, after)
  {
    if AllCrashSafe(before) {
      forall i | 0 <= i < |after|
        ensures CrashSafe(after[i])
      {
        if i < |before| {
          assert before[i] == after[i];
        } else {
          assert after[i] in allowed;
        }
      }
    }
  }

  /** What an activation that succeeds was told, in this order. */
  ghost function ActivationProofs(adoption: bool, identity: string, g: Generation, receipt: nat): seq<Proof> {
    [Satisfies(Reload), Opened(if adoption then AdoptionFullReset else ManagedReload, identity),
     Loaded(g), Exact(receipt, true)]
  }

  /** What a rollback that succeeds was told; a side that was never managed is reset as a whole. */
  ghost function RollbackProofs(bridge: Bridge, identity: string, receipt: nat): seq<Proof> {
    [Bridged(Some(bridge)), Opened(if bridge.prior == "" then LegacyRollback else ManagedRollback, identity),
     Exchanged(receipt), Loaded(bridge.prior), Exact(receipt, false)]
  }

  ghost predicate RolledBack(before: seq<Proof>, after: seq<Proof>, bridge: Bridge, receipt: nat) {
    exists identity :: after == before + RollbackProofs(bridge, identity, receipt)
  }

  class LiveActivationBackend {
    const world: World
    const publisher: EntrypointPublisher
    const runtime: HyprlandRuntime
    var filesystemBound: bool
    var versionPolicyConfigured: bool
    var committedGeneration: Generation
    var finalizationFailed: bool

    ghost predicate Valid()
      reads this, world
    {
      && publisher.world == world
      && runtime.world == world
      && world.Valid()
    }

    constructor (w: World)
      requires w.Valid()
      ensures Valid() && world == w && fresh(publisher) && fresh(runtime)
      ensures !filesystemBound && !versionPolicyConfigured && !finalizationFailed
      ensures committedGeneration == ""
    {
      world := w;
      publisher := new EntrypointPublisher(w);
      runtime := new HyprlandRuntime(w);
      filesystemBound, versionPolicyConfigured := false, false;
      committedGeneration, finalizationFailed := "", false;
    }

    method BindFilesystemContext() returns (ok: bool)
      requires Valid()
      modifies this`filesystemBound, world`refusals
      ensures Valid()
      ensures world.refusals >= old(world.refusals)
      ensures old(filesystemBound) ==> !ok && filesystemBound
      ensures !old(filesystemBound) ==> filesystemBound == ok
      ensures (world.refusals == old(world.refusals) && !old(filesystemBound)) ==> ok
    {
      if filesystemBound {
        return false;
      }
      ok := *;
      if !ok {
        world.Refuse();
      }
      filesystemBound := ok;
    }

    method SetVersionPolicy()
      requires Valid()
      modifies this`versionPolicyConfigured
      ensures Valid() && versionPolicyConfigured
    {
      versionPolicyConfigured := true;
    }

    /** Ownership counts only when it is bound to what the authority committed. */
    method Status() returns (s: ManagementStatus)
      requires Valid()
      modifies world`refusals
      ensures Valid()
      ensures world.refusals >= old(world.refusals)
      ensures s.state != Previewing
      ensures s.state == Managed ==>
          !finalizationFailed && committedGeneration != "" && s.generation == committedGeneration
      ensures s.state == Unmanaged ==>
          !finalizationFailed && committedGeneration == "" && s.generation == ""
      ensures s.state != Conflict ==>
          s.generation in {world.disk.entrypoint, world.disk.ownership}
      ensures (world.refusals == old(world.refusals) && !finalizationFailed
          && world.disk.entrypoint == committedGeneration && world.disk.ownership == committedGeneration) ==>
          s.state == if committedGeneration == "" then Unmanaged else Managed
      ensures world.refusals == old(world.refusals) && s.state == Conflict ==> s.generation == ""
    {
      s := publisher.Status();
      var exactManaged := s.state == Managed && committedGeneration != ""
        && s.generation == committedGeneration;
      var exactUnmanaged := s.state == Unmanaged && committedGeneration == "";
      if finalizationFailed || (!exactManaged && !exactUnmanaged && s.state != Conflict) {
        s := s.(state := Conflict, generation := "");
      }
    }

    method CanSatisfy(requirement: Requirement) returns (ok: bool)
      requires Valid()
      modifies world`refusals, world`proofs
      ensures Valid()
      ensures world.refusals >= old(world.refusals)
      ensures ok ==> filesystemBound && versionPolicyConfigured && !finalizationFailed
      ensures (world.refusals == old(world.refusals) && filesystemBound && versionPolicyConfigured
          && !finalizationFailed) ==> ok
      ensures world.proofs == old(world.proofs) + if ok then [Satisfies(requirement)] else []
    {
      ok := filesystemBound && versionPolicyConfigured && !finalizationFailed;
      if ok {
        ok := runtime.CanSatisfy(requirement);
      }
    }

    method ConnectedDisplays() returns (t: Option<Topology>)
      requires Valid()
      modifies world`refusals, world`proofs
      ensures world.proofs == old(world.proofs) + if t.Some? then [Displays(t.value)] else []
      ensures Valid()
      ensures world.refusals >= old(world.refusals)
      ensures t.Some? ==> filesystemBound && versionPolicyConfigured && !finalizationFailed
      ensures (filesystemBound && versionPolicyConfigured && !finalizationFailed
          && world.refusals == old(world.refusals)) ==> t.Some?
    {
      if !filesystemBound || !versionPolicyConfigured || finalizationFailed {
        return None;
      }
      t := runtime.ConnectedDisplays();
    }

    /** Whether a generation may be put live at all: it is qualified, an exact reload suffices,
        and the entrypoint is bound to the side the call expects. */
    ghost predicate MayActivate(prepared: PreparedGeneration, adoption: bool)
      reads this
    {
      && filesystemBound && !finalizationFailed && versionPolicyConfigured
      && prepared.requirement == Reload && prepared.qualified
      && adoption == (committedGeneration == "")
    }

    /** Publish behind a bridge, reload, and prove the exact target. When this reports that
        nothing may have occurred, the disk is untouched; when it succeeds, the target is
        live and can be undone. */
    method PublishAndActivate(prepared: PreparedGeneration, adoption: bool) returns (r: ActivationResult)
      requires Valid()
      modifies world
      ensures Valid()
      ensures r.success ==> world.running == prepared.id
      ensures world.refusals >= old(world.refusals) && old(world.proofs) <= world.proofs
      ensures r.mayHaveOccurred && !r.success ==> world.refusals > old(world.refusals)
      ensures !prepared.qualified ==> !r.success && world.disk == old(world.disk) && world.running == old(world.running)
      ensures ReadyToPublish(old(world.disk), prepared.id) ==> KeepsSafe(old(world.trace), world.trace)
      ensures !r.mayHaveOccurred ==> !r.success && world.disk == old(world.disk) && world.running == old(world.running)
      ensures r.mayHaveOccurred ==>
          && MayActivate(prepared, adoption)
          && committedGeneration in {old(world.disk).entrypoint, old(world.disk).ownership}
      ensures !MayActivate(prepared, adoption) ==>
          r.reason == Refusal(prepared, adoption) || world.refusals > old(world.refusals)
      ensures r.success ==> r.mayHaveOccurred && r.receipt == old(world.nextToken) && r.receipt != 0
      ensures r.success ==>
          world.proofs == old(world.proofs) + ActivationProofs(adoption, r.runtimeIdentity, prepared.id, r.receipt)
      ensures r.success ==> r.generation == prepared.id && r.confirmedRequirement == Reload && r.reason == Fine
      ensures r.mayHaveOccurred && r.reason in {ReloadFailed, VerificationFailed} ==> r.receipt == old(world.nextToken)
      ensures r.success && ReadyToPublish(old(world.disk), prepared.id) ==>
          TargetLive(world.disk, r.receipt, prepared.id) && world.disk.journal == old(world.disk).journal
          && world.disk.committed == old(world.disk).committed
      ensures ReadyToPublish(old(world.disk), prepared.id) ==>
          Undoable(world.disk) && world.disk.journal == old(world.disk).journal
          && world.disk.committed == old(world.disk).committed
          && world.disk.ownership == world.disk.committed
      ensures r.success ==> r.status.generation == prepared.id
      ensures r.success && prepared.id != "" ==> r.status.state == Managed
      ensures world.log == old(world.log) + [Activated(r.mayHaveOccurred)]
      ensures (world.refusals == old(world.refusals) && filesystemBound && !finalizationFailed
          && versionPolicyConfigured && prepared.requirement == Reload && prepared.qualified
          && ReadyToPublish(old(world.disk), prepared.id) && committedGeneration == old(world.disk).committed
          && adoption == (committedGeneration == "")) ==>
          r.success && r.generation == prepared.id && r.confirmedRequirement == prepared.requirement
    {
      var before := world.disk;
      r := Attempt(prepared, adoption);
      world.Record(Activated(r.mayHaveOccurred));
      if ReadyToPublish(before, prepared.id) {
        GrewSafely(old(world.trace), world.trace,
                   PublishStates(before, old(world.nextToken), prepared.id));
      }
    }

    /** The error of a generation that may not be put live, when nothing else goes wrong. */
    ghost function Refusal(prepared: PreparedGeneration, adoption: bool): Reason
      reads this
    {
      if !filesystemBound || finalizationFailed then ApplyFailed
      else if prepared.requirement != Reload then ActivationRequired
      else if !prepared.qualified || !versionPolicyConfigured then VerificationFailed
      else if adoption then EntrypointChanged
      else ApplyFailed
    }

    /** Everything before the first write: the checks in their order, then a runtime session. */
    method Admit(prepared: PreparedGeneration, adoption: bool) returns (r: ActivationResult, session: Option<string>)
      requires Valid()
      modifies world`refusals, world`proofs
      ensures Valid()
      ensures world.refusals >= old(world.refusals) && old(world.proofs) <= world.proofs
      ensures !r.success && !r.mayHaveOccurred && r.receipt == 0 && r.reason != Fine
      ensures session.Some? ==>
          && MayActivate(prepared, adoption)
          && committedGeneration in {world.disk.entrypoint, world.disk.ownership}
          && world.proofs == old(world.proofs) + ActivationProofs(adoption, session.value, "", 0)[..2]
      ensures (session.None? && MayActivate(prepared, adoption) && world.disk.entrypoint == committedGeneration
          && world.disk.ownership == committedGeneration) ==> world.refusals > old(world.refusals)
      ensures session.None? && !MayActivate(prepared, adoption) ==>
          r.reason == Refusal(prepared, adoption) || world.refusals > old(world.refusals)
    {
      var current := Status();
      r := ActivationResult(false, false, ApplyFailed, "", "", Reload, 0, current);
      if !filesystemBound || finalizationFailed {
        return r, None;
      }
      var satisfied := prepared.requirement == Reload;
      if satisfied {
        satisfied := runtime.CanSatisfy(prepared.requirement);
      }
      if !satisfied {
        return r.(reason := ActivationRequired), None;
      }
      if !prepared.qualified || !versionPolicyConfigured {
        return r.(reason := VerificationFailed), None;
      }
      current := Status();
      var stateValid :=
        if adoption then current.state == Unmanaged && committedGeneration == ""
        else current.state == Managed && current.generation == committedGeneration && committedGeneration != "";
      if !stateValid {
        return r.(reason := if adoption then EntrypointChanged else ApplyFailed, status := current), None;
      }
      var ready, identity := runtime.PrepareSession(if adoption then AdoptionFullReset else ManagedReload);
      if !ready {
        return r.(reason := ReloadFailed, status := current), None;
      }
      session := Some(identity);
    }

    method Attempt(prepared: PreparedGeneration, adoption: bool) returns (r: ActivationResult)
      requires Valid()
      modifies world`disk, world`trace, world`refusals, world`proofs, world`nextToken, world`running
      ensures Valid()
      ensures r.success ==> world.running == prepared.id
      ensures world.refusals >= old(world.refusals) && old(world.proofs) <= world.proofs
      ensures r.mayHaveOccurred && !r.success ==> world.refusals > old(world.refusals)
      ensures !prepared.qualified ==> !r.success && world.disk == old(world.disk) && world.running == old(world.running)
      ensures Grew(old(world.trace), world.trace,
                PublishStates(old(world.disk), old(world.nextToken), prepared.id))
      ensures !r.mayHaveOccurred ==> !r.success && world.disk == old(world.disk) && world.running == old(world.running)
      ensures r.mayHaveOccurred ==>
          && MayActivate(prepared, adoption)
          && committedGeneration in {old(world.disk).entrypoint, old(world.disk).ownership}
      ensures !MayActivate(prepared, adoption) ==>
          r.reason == Refusal(prepared, adoption) || world.refusals > old(world.refusals)
      ensures r.success ==>
          world.proofs == old(world.proofs) + ActivationProofs(adoption, r.runtimeIdentity, prepared.id, r.receipt)
      ensures r.success ==> r.reason == Fine && r.receipt == old(world.nextToken)
      ensures r.mayHaveOccurred && r.reason in {ReloadFailed, VerificationFailed} ==> r.receipt == old(world.nextToken)
      ensures r.success ==>
          && r.mayHaveOccurred && r.receipt != 0 && r.generation == prepared.id
          && prepared.requirement == Reload && r.confirmedRequirement == Reload
          && world.disk.bridge == Some(PublishedBridge(old(world.disk), r.receipt, prepared.id))
          && world.disk.entrypoint == prepared.id
          && r.status.generation == prepared.id
          && r.status.state == (if prepared.id == "" then Unmanaged else Managed)
          && (committedGeneration != "" || adoption)
      ensures world.disk in PublishStates(old(world.disk), old(world.nextToken), prepared.id)
      ensures (world.refusals == old(world.refusals) && filesystemBound && !finalizationFailed
          && versionPolicyConfigured && prepared.requirement == Reload && prepared.qualified
          && ReadyToPublish(old(world.disk), prepared.id) && committedGeneration == old(world.disk).committed
          && adoption == (committedGeneration == "")) ==> r.success
    {
      var session;
      r, session := Admit(prepared, adoption);
      if session.None? {
        return;
      }
      var identity := session.value;
      var published := publisher.Publish(prepared.id);
      if !published.success {
        return r.(mayHaveOccurred := published.namespaceMayHaveChanged || published.receipt != 0,
                  reason := EntrypointChanged, receipt := published.receipt, status := published.status);
      }
      r := r.(mayHaveOccurred := true, receipt := published.receipt, status := published.status);
      var proved := runtime.ReloadAndConfirm();
      if !proved {
        return r.(reason := ReloadFailed);
      }
      var exact := publisher.VerifyTransition(published.receipt, true);
      if !exact.success {
        return r.(reason := VerificationFailed, status := exact.status);
      }
      r := ActivationResult(true, true, Fine, prepared.id, identity, prepared.requirement,
                            published.receipt, exact.status);
    }

    method Rollback(receipt: nat) returns (r: ActivationResult)
      requires Valid()
      modifies world
      ensures Valid()
      ensures r.success ==> old(world.disk).bridge.Some?
      ensures r.success ==>
          && filesystemBound && receipt != 0 && old(world.disk).bridge.value.prior == committedGeneration
          && r.reason == Fine && !r.mayHaveOccurred && r.confirmedRequirement == Reload
          && r.status.generation == committedGeneration
          && r.status.state == (if committedGeneration == "" then Unmanaged else Managed)
          && RolledBack(old(world.proofs), world.proofs, old(world.disk).bridge.value, receipt)
      ensures !Undoing(old(world.disk), receipt) ==>
          && world.disk == old(world.disk) && world.running == old(world.running) && !r.success
          && r.reason == if !filesystemBound || receipt == 0 then ApplyFailed else EntrypointChanged
      ensures r.receipt == if r.mayHaveOccurred then receipt else 0
      ensures r.reason in {ReloadFailed, VerificationFailed, PersistenceFailed} ==> r.mayHaveOccurred
      ensures r.success ==> world.running == committedGeneration
      ensures world.refusals >= old(world.refusals) && old(world.proofs) <= world.proofs
      ensures Undoable(old(world.disk)) ==> KeepsSafe(old(world.trace), world.trace) && Undoable(world.disk)
      ensures world.disk.committed == old(world.disk).committed && world.disk.journal == old(world.disk).journal
      ensures r.success ==>
          && old(world.disk).bridge.Some? && old(world.disk).bridge.value.token == receipt
          && world.disk.bridge == None
          && world.disk.entrypoint == committedGeneration && world.disk.ownership == committedGeneration
      ensures world.disk.bridge.Some? ==> world.disk.bridge == old(world.disk).bridge
      ensures world.log == old(world.log) + [RollbackCalled(r.success)]
      ensures (world.refusals == old(world.refusals) && filesystemBound && receipt != 0
          && old(world.disk).bridge.Some? && old(world.disk).bridge.value.token == receipt
          && old(world.disk).bridge.value.prior == committedGeneration) ==> r.success
    {
      r := Undo(receipt);
      world.Record(RollbackCalled(r.success));
    }

    /** There is a bridge of that receipt back to the committed side. */
    ghost predicate Undoing(d: Disk, receipt: nat)
      reads this
    {
      && filesystemBound && receipt != 0
      && d.bridge.Some? && d.bridge.value.token == receipt && d.bridge.value.prior == committedGeneration
    }

    /** The body of `rollback`, which startup reconciliation also runs. */
    method Undo(receipt: nat) returns (r: ActivationResult)
      requires Valid()
      modifies world`disk, world`trace, world`refusals, world`proofs, world`running
      ensures Valid()
      ensures r.success ==> old(world.disk).bridge.Some?
      ensures r.success ==>
          && filesystemBound && receipt != 0 && old(world.disk).bridge.value.prior == committedGeneration
          && r.reason == Fine && !r.mayHaveOccurred && r.confirmedRequirement == Reload
          && r.status.generation == committedGeneration
          && r.status.state == (if committedGeneration == "" then Unmanaged else Managed)
          && RolledBack(old(world.proofs), world.proofs, old(world.disk).bridge.value, receipt)
      ensures !Undoing(old(world.disk), receipt) ==>
          && world.disk == old(world.disk) && world.running == old(world.running) && !r.success
          && r.reason == if !filesystemBound || receipt == 0 then ApplyFailed else EntrypointChanged
      ensures r.receipt == if r.mayHaveOccurred then receipt else 0
      ensures r.reason in {ReloadFailed, VerificationFailed, PersistenceFailed} ==> r.mayHaveOccurred
      ensures r.success ==> world.running == committedGeneration
      ensures world.refusals >= old(world.refusals) && old(world.proofs) <= world.proofs
      ensures r.reason != NeitherSide && (r.reason == Fine ==> r.success)
      ensures Undoable(old(world.disk)) ==> KeepsSafe(old(world.trace), world.trace) && Undoable(world.disk)
      ensures world.disk.committed == old(world.disk).committed && world.disk.journal == old(world.disk).journal
      ensures r.success ==>
          && old(world.disk).bridge.Some? && old(world.disk).bridge.value.token == receipt
          && world.disk.bridge == None
          && world.disk.entrypoint == committedGeneration && world.disk.ownership == committedGeneration
      ensures world.disk.bridge.Some? ==> world.disk.bridge == old(world.disk).bridge
      ensures (world.refusals == old(world.refusals) && filesystemBound && receipt != 0
          && old(world.disk).bridge.Some? && old(world.disk).bridge.value.token == receipt
          && old(world.disk).bridge.value.prior == committedGeneration) ==> r.success
    {
      var current := Status();
      r := ActivationResult(false, false, ApplyFailed, "", "", Reload, 0, current);
      if !filesystemBound || receipt == 0 {
        return;
      }
      var ok, pending := publisher.PendingReconciliation();
      if !ok || pending.None? || pending.value.token != receipt {
        return r.(reason := EntrypointChanged);
      }
      r := r.(mayHaveOccurred := true, receipt := receipt);
      if pending.value.prior != committedGeneration {
        return r.(reason := EntrypointChanged);
      }
      var legacy := pending.value.prior == "";
      var ready, identity := runtime.PrepareSession(if legacy then LegacyRollback else ManagedRollback);
      if !ready {
        return r.(reason := ReloadFailed);
      }
      var restored, status := RestorePrior(receipt);
      if restored != Fine {
        return r.(reason := restored, status := status);
      }
      assert world.proofs == old(world.proofs) + RollbackProofs(pending.value, identity, receipt);
      r := ActivationResult(true, false, Fine, "", "", Reload, 0, status);
    }

    /** Exchange the prior entrypoint back, reload it, prove it exact, then drop the bridge. */
    method RestorePrior(receipt: nat) returns (reason: Reason, status: ManagementStatus)
      requires Valid()
      requires world.disk.bridge.Some?
      modifies world`disk, world`trace, world`refusals, world`proofs, world`running
      ensures Valid()
      ensures reason == Fine ==>
          world.proofs == old(world.proofs)
            + [Exchanged(receipt), Loaded(old(world.disk).bridge.value.prior), Exact(receipt, false)]
      ensures reason == Fine ==>
          && status.generation == old(world.disk).bridge.value.prior
          && status.state == (if old(world.disk).bridge.value.prior == "" then Unmanaged else Managed)
      ensures reason in {Fine, ReloadFailed, VerificationFailed, PersistenceFailed}
      ensures reason == Fine ==> world.running == old(world.disk).bridge.value.prior
      ensures world.refusals >= old(world.refusals) && old(world.proofs) <= world.proofs
      ensures reason != NeitherSide
      ensures Undoable(old(world.disk)) ==> KeepsSafe(old(world.trace), world.trace)
      ensures Undoable(old(world.disk)) ==> Undoable(world.disk)
      ensures reason != Fine ==> world.refusals > old(world.refusals)
      ensures world.disk in RestoreStates(old(world.disk))
          || exists d <- RestoreStates(old(world.disk)) :: world.disk in FinalizeStates(d, false)
      ensures reason == Fine ==>
          && old(world.disk).bridge.value.token == receipt
          && world.disk == old(world.disk).(
              entrypoint := old(world.disk).bridge.value.prior,
              ownership := old(world.disk).bridge.value.prior, bridge := None)
    {
      var before := world.disk;
      var restored := publisher.Rollback(receipt);
      if Undoable(before) {
        GrewSafely(old(world.trace), world.trace, RestoreStates(before));
      }
      if !restored.success {
        return ReloadFailed, restored.status;
      }
      reason, status := ProvePrior(receipt, restored.status);
      if reason != Fine {
        return;
      }
      ghost var trace1 := world.trace;
      var middle := world.disk;
      var finalized := publisher.Finalize(receipt, false);
      if Undoable(before) {
        GrewSafely(trace1, world.trace, FinalizeStates(middle, false));
      }
      reason, status := if finalized.success then Fine else PersistenceFailed, finalized.status;
    }

    /** Reload what was exchanged back and prove that it is the prior side. */
    method ProvePrior(receipt: nat, restored: ManagementStatus) returns (reason: Reason, status: ManagementStatus)
      requires Valid()
      modifies world`refusals, world`proofs, world`running
      ensures Valid()
      ensures world.refusals >= old(world.refusals) && old(world.proofs) <= world.proofs
      ensures reason in {Fine, ReloadFailed, VerificationFailed}
      ensures reason != Fine ==> world.refusals > old(world.refusals)
      ensures reason == Fine ==>
          && world.disk.bridge.Some? && world.disk.bridge.value.token == receipt
          && world.running == world.disk.entrypoint == world.disk.bridge.value.prior
          && world.proofs == old(world.proofs) + [Loaded(world.running), Exact(receipt, false)]
    {
      var proved := runtime.ReloadAndConfirm();
      if !proved {
        return ReloadFailed, restored;
      }
      var exact := publisher.VerifyTransition(receipt, false);
      if !exact.success {
        return VerificationFailed, exact.status;
      }
      reason, status := Fine, exact.status;
    }

    /** Called only once the authority has durably committed `generation`. */
    method FinalizeCommitted(receipt: nat, generation: Generation) returns (r: BackendResult)
      requires Valid()
      modifies this`committedGeneration, this`finalizationFailed, world
      ensures Valid()
      ensures r.success ==>
          && receipt != 0 && old(world.disk).bridge.Some? && old(world.disk).bridge.value.token == receipt
          && r.reason == Fine && world.proofs == old(world.proofs) + [Bridged(old(world.disk).bridge)]
      ensures receipt == 0 || generation == "" ==>
          !r.success && r.reason == PersistenceFailed && world.disk == old(world.disk)
      ensures !Finalizes(old(world.disk), receipt, generation) ==> !r.success && world.disk == old(world.disk)
      ensures (receipt != 0 && generation != "" && !Finalizes(old(world.disk), receipt, generation)) ==>
          r.reason == VerificationFailed
      ensures world.running == old(world.running)
      ensures world.refusals >= old(world.refusals) && old(world.proofs) <= world.proofs
      ensures CrashSafe(old(world.disk)) && Decision(old(world.disk)) == generation ==>
          KeepsSafe(old(world.trace), world.trace)
      ensures world.disk.committed == old(world.disk).committed && world.disk.journal == old(world.disk).journal
      ensures committedGeneration == generation
      ensures r.success ==>
          && finalizationFailed == old(finalizationFailed) == false
          && old(world.disk).bridge.Some? && old(world.disk).bridge.value.target == generation
          && world.disk == old(world.disk).(bridge := None, ownership := generation)
          && r.status.state == Managed && r.status.generation == generation && generation != ""
      ensures !r.success ==> finalizationFailed && r.status.state == Conflict && r.status.generation == ""
      ensures world.log == old(world.log) + [FinalizeCalled(r.success)]
      ensures (world.refusals == old(world.refusals) && receipt != 0 && generation != "" && !old(finalizationFailed)
          && old(world.disk).bridge.Some? && old(world.disk).bridge.value.token == receipt
          && old(world.disk).bridge.value.target == generation && old(world.disk).entrypoint == generation) ==>
          r.success
    {
      committedGeneration := generation;
      r := Bind(receipt, generation);
      if !r.success {
        finalizationFailed := true;
        r := r.(status := r.status.(state := Conflict, generation := ""));
      }
      world.Record(FinalizeCalled(r.success));
    }

    /** There is a bridge of that receipt to the generation. */
    ghost predicate Finalizes(d: Disk, receipt: nat, generation: Generation) {
      && receipt != 0 && generation != ""
      && d.bridge.Some? && d.bridge.value.token == receipt && d.bridge.value.target == generation
    }

    method Bind(receipt: nat, generation: Generation) returns (r: BackendResult)
      requires Valid() && committedGeneration == generation
      modifies world`disk, world`trace, world`refusals, world`proofs
      ensures Valid()
      ensures r.success ==>
          && receipt != 0 && old(world.disk).bridge.Some? && old(world.disk).bridge.value.token == receipt
          && r.reason == Fine && world.proofs == old(world.proofs) + [Bridged(old(world.disk).bridge)]
      ensures receipt == 0 || generation == "" ==>
          !r.success && r.reason == PersistenceFailed && world.disk == old(world.disk)
      ensures !Finalizes(old(world.disk), receipt, generation) ==> !r.success && world.disk == old(world.disk)
      ensures (receipt != 0 && generation != "" && !Finalizes(old(world.disk), receipt, generation)) ==>
          r.reason == VerificationFailed
      ensures world.refusals >= old(world.refusals) && old(world.proofs) <= world.proofs
      ensures CrashSafe(old(world.disk)) && Decision(old(world.disk)) == generation ==>
          KeepsSafe(old(world.trace), world.trace)
      ensures world.disk.committed == old(world.disk).committed && world.disk.journal == old(world.disk).journal
      ensures r.success ==>
          && !finalizationFailed
          && old(world.disk).bridge.Some? && old(world.disk).bridge.value.target == generation
          && world.disk == old(world.disk).(bridge := None, ownership := generation)
          && r.status.state == Managed && r.status.generation == generation && generation != ""
      ensures (world.refusals == old(world.refusals) && receipt != 0 && generation != "" && !finalizationFailed
          && old(world.disk).bridge.Some? && old(world.disk).bridge.value.token == receipt
          && old(world.disk).bridge.value.target == generation && old(world.disk).entrypoint == generation) ==>
          r.success
    {
      var current := publisher.Status();
      r := BackendResult(false, PersistenceFailed, current);
      if receipt == 0 || generation == "" {
        return;
      }
      var ok, pending := publisher.PendingReconciliation();
      if !ok || pending.None? || pending.value.token != receipt || pending.value.target != generation {
        return r.(reason := VerificationFailed);
      }
      var before := world.disk;
      ghost var trace0 := world.trace;
      var finalized := publisher.Finalize(receipt, true);
      if CrashSafe(before) && Decision(before) == generation {
        GrewSafely(trace0, world.trace, FinalizeStates(before, true));
      }
      if !finalized.success {
        return r.(status := finalized.status);
      }
      current := Status();
      if current.state != Managed || current.generation != committedGeneration {
        return BackendResult(false, VerificationFailed, current);
      }
      r := BackendResult(true, Fine, current);
    }

    method VerifyPendingTarget(receipt: nat, generation: Generation) returns (r: BackendResult)
      requires Valid()
      modifies world`refusals, world`proofs
      ensures Valid()
      ensures world.refusals >= old(world.refusals) && old(world.proofs) <= world.proofs
      ensures r.success ==>
          filesystemBound && world.proofs == old(world.proofs) + [Bridged(world.disk.bridge), Exact(receipt, true)]
      ensures r.reason == if r.success then Fine
        else if filesystemBound && receipt != 0 && generation != ""
             && (world.proofs == old(world.proofs) || !Finalizes(world.disk, receipt, generation)) then
          EntrypointChanged
        else VerificationFailed
      ensures r.success ==>
          && receipt != 0 && generation != ""
          && world.disk.bridge.Some? && world.disk.bridge.value.token == receipt
          && world.disk.bridge.value.target == generation && world.disk.entrypoint == generation
          && r.status.state == Managed && r.status.generation == generation
      ensures !r.success ==> r.status.state == Conflict && r.status.generation == ""
      ensures (world.refusals == old(world.refusals) && filesystemBound && generation != ""
          && receipt != 0 && TargetLive(world.disk, receipt, generation)) ==> r.success
    {
      var current := publisher.Status();
      var conflict := current.(state := Conflict, generation := "");
      if !filesystemBound || receipt == 0 || generation == "" {
        return BackendResult(false, VerificationFailed, conflict);
      }
      var ok, pending := publisher.PendingReconciliation();
      if !ok || pending.None? || pending.value.token != receipt || pending.value.target != generation {
        return BackendResult(false, EntrypointChanged, conflict);
      }
      var verified := publisher.VerifyTransition(receipt, true);
      if !verified.success || verified.status.state != Managed || verified.status.generation != generation {
        return BackendResult(false, VerificationFailed,
                             verified.status.(state := Conflict, generation := ""));
      }
      r := BackendResult(true, Fine, verified.status);
    }

    /** Startup, after `Initialize` made the committed generation unambiguous. From every
        crash-safe disk the result is decided by one of the bridge's two sides, success leaves
        both parties settled on the committed generation, and a crash during this very run is
        again safe. */
    method ReconcileStartup(committed: Generation) returns (r: BackendResult)
      requires Valid()
      modifies this`committedGeneration, this`finalizationFailed,
        world`disk, world`trace, world`refusals, world`proofs, world`running
      ensures Valid()
      ensures r.success ==> filesystemBound && versionPolicyConfigured && r.reason == Fine
      ensures r.success ==>
          if old(world.disk).bridge.Some? && old(world.disk).bridge.value.target != committed then
            RolledBack(old(world.proofs) + [Bridged(old(world.disk).bridge)], world.proofs,
                       old(world.disk).bridge.value, old(world.disk).bridge.value.token)
          else world.proofs == old(world.proofs) + [Bridged(old(world.disk).bridge)]
      ensures !r.success ==> r.reason != Fine && r.status.state == Conflict && r.status.generation == ""
      ensures !filesystemBound || !versionPolicyConfigured ==>
          !r.success && r.reason == PersistenceFailed && world.disk == old(world.disk)
      ensures !r.success && r.reason in {NeitherSide, PersistenceFailed} && world.disk == old(world.disk) ==>
          committedGeneration in {old(committedGeneration), committed}
      ensures r.reason == NeitherSide ==>
          committedGeneration == old(committedGeneration) && world.disk == old(world.disk)
      ensures world.refusals == old(world.refusals) && filesystemBound && versionPolicyConfigured ==>
          (r.reason == NeitherSide <==>
             old(world.disk).bridge.Some?
             && committed !in {old(world.disk).bridge.value.target, old(world.disk).bridge.value.prior})
      ensures finalizationFailed && !old(finalizationFailed) ==>
          !r.success && r.reason == PersistenceFailed && old(world.disk).bridge.Some?
          && old(world.disk).bridge.value.target == committed
      ensures r.success && old(world.disk).bridge.Some? ==>
          old(world.disk).bridge.value.target == committed || world.running == committed
      ensures world.refusals >= old(world.refusals)
      ensures r.reason == NeitherSide ==>
          && old(world.disk).bridge.Some?
          && committed !in {old(world.disk).bridge.value.target, old(world.disk).bridge.value.prior}
      ensures r.success ==> committedGeneration == committed
      ensures r.success ==> finalizationFailed == old(finalizationFailed)
      ensures r.success ==>
          && r.status.state == (if committed == "" then Unmanaged else Managed)
          && r.status.generation == committed
      ensures world.disk.committed == old(world.disk).committed && world.disk.journal == old(world.disk).journal
      ensures Startable(old(world.disk), committed) ==> KeepsSafe(old(world.trace), world.trace)
      ensures Startable(old(world.disk), committed) ==> r.reason != NeitherSide
      ensures Startable(old(world.disk), committed) && r.success ==> Settled(world.disk)
      ensures (Startable(old(world.disk), committed) && world.refusals == old(world.refusals)
          && old(filesystemBound) && old(versionPolicyConfigured) && !old(finalizationFailed)) ==> r.success
    {
      var probed := publisher.Status();
      var conflict := probed.(state := Conflict, generation := "");
      if !filesystemBound || !versionPolicyConfigured {
        return BackendResult(false, PersistenceFailed, conflict);
      }
      var ok, pending := publisher.PendingReconciliation();
      if !ok {
        return BackendResult(false, PersistenceFailed, conflict);
      }
      if pending.None? {
        committedGeneration := committed;
        r := BoundTo(EntrypointChanged);
        return;
      }
      var bridge := pending.value;
      if bridge.target == committed {
        committedGeneration := committed;
        r := FinalizeTarget(bridge);
        return;
      }
      if bridge.prior != committed {
        return BackendResult(false, NeitherSide, conflict);
      }
      committedGeneration := committed;
      var rolledBack := Undo(bridge.token);
      if !rolledBack.success {
        return BackendResult(false, rolledBack.reason, rolledBack.status.(state := Conflict, generation := ""));
      }
      r := BoundTo(VerificationFailed);
    }

    /** The target was committed before the crash: no reload, only the bridge's removal. */
    method FinalizeTarget(bridge: Bridge) returns (r: BackendResult)
      requires Valid()
      requires world.disk.bridge == Some(bridge) && bridge.target == committedGeneration
      modifies this`finalizationFailed, world`disk, world`trace, world`refusals
      ensures Valid()
      ensures world.refusals >= old(world.refusals)
      ensures r.reason == Fine <==> r.success
      ensures !r.success ==>
          r.reason in {PersistenceFailed, VerificationFailed} && r.status.state == Conflict && r.status.generation == ""
      ensures finalizationFailed && !old(finalizationFailed) ==> r.reason == PersistenceFailed
      ensures r.reason == PersistenceFailed ==> finalizationFailed
      ensures world.disk.committed == old(world.disk).committed && world.disk.journal == old(world.disk).journal
      ensures Startable(old(world.disk), committedGeneration) ==> KeepsSafe(old(world.trace), world.trace)
      ensures r.success ==>
          && finalizationFailed == old(finalizationFailed)
          && committedGeneration != ""
          && r.status.state == Managed && r.status.generation == committedGeneration
          && world.disk == old(world.disk).(bridge := None, ownership := committedGeneration)
      ensures (Startable(old(world.disk), committedGeneration) && world.refusals == old(world.refusals)
          && !old(finalizationFailed)) ==> r.success
    {
      var before := world.disk;
      var finalized := publisher.Finalize(bridge.token, true);
      if Startable(before, committedGeneration) {
        GrewSafely(old(world.trace), world.trace, FinalizeStates(before, true));
      }
      if !finalized.success {
        finalizationFailed := true;
        return BackendResult(false, PersistenceFailed, finalized.status.(state := Conflict, generation := ""));
      }
      var current := Status();
      if current.state != Managed || current.generation != committedGeneration {
        return BackendResult(false, VerificationFailed, current.(state := Conflict, generation := ""));
      }
      r := BackendResult(true, Fine, current);
    }

    method BoundTo(otherwise: Reason) returns (r: BackendResult)
      requires Valid()
      requires otherwise in {EntrypointChanged, VerificationFailed}
      modifies world`refusals
      ensures Valid()
      ensures world.refusals >= old(world.refusals)
      ensures r.reason == if r.success then Fine else otherwise
      ensures !r.success ==> r.status.state == Conflict && r.status.generation == ""
      ensures r.success ==>
          && r.status.state == (if committedGeneration == "" then Unmanaged else Managed)
          && r.status.generation == committedGeneration
          && committedGeneration in {world.disk.entrypoint, world.disk.ownership}
      ensures (world.refusals == old(world.refusals) && !finalizationFailed
          && world.disk.entrypoint == committedGeneration && world.disk.ownership == committedGeneration) ==> r.success
    {
      var current := Status();
      var exact :=
        if committedGeneration == "" then current.state == Unmanaged
        else current.state == Managed && current.generation == committedGeneration;
      if !exact {
        return BackendResult(false, otherwise, current.(state := Conflict, generation := ""));
      }
      r := BackendResult(true, Fine, current);
    }
  }
}

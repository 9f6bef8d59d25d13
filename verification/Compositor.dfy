/** `CompositorService`: the calls, timers and polls that drive one activation transaction at
    a time, the display-preview capability on top of it, and the background reconciler of
    shared visual settings. Deadlines, owner probes, topology reports and what a prepare
    comes back with are arbitrary; an unfavourable one counts as a refusal of the world. */
module Compositor {
  import opened Options
  import opened ActivationProtocol
  import opened DurableWorld
  import opened LiveBackend

  datatype Completion = Completion(success: bool, snapshot: Snapshot, management: ManagementStatus)

  datatype DisplayConfirmation = DisplayConfirmation(
    serial: nat,
    token: string,
    owner: string,
    generation: Generation,
    previewRevision: nat,
    receipt: nat,
    baseline: Topology,
    liveRolledBack: bool,
    terminationStarted: bool,
    rolledBackStatus: Option<ManagementStatus>
  )

  datatype DisplayTerminal = DisplayTerminal(
    serial: nat,
    token: string,
    owner: string,
    action: TerminalAction,
    revision: nat,
    generation: Generation
  )

  datatype ConfirmationState = Idle | AwaitingConfirmation | RevertingDisplay | CommittingDisplay | DisplayFailed

  // ---- Shared visual settings ----

  datatype Projection = Projection(syncBorders: bool, syncSpacing: bool, border: string, spacing: string)

  /** The border and spacing editors, by what their callers use of them. */
  datatype Editors = Editors(
    borderOf: Document -> Option<string>,
    spacingOf: Document -> Option<string>,
    protectedRuleExact: Document -> bool,
    editBorder: (Document, Projection) -> Option<Document>,
    editSpacing: (Document, Projection) -> Option<Document>
  )

  ghost function OwnEdits(e: Editors, base: Document, p: Projection, border: bool, spacing: bool): Option<Document> {
    var bordered := if border then e.editBorder(base, p) else Some(base);
    if bordered.None? then None
    else if spacing then e.editSpacing(bordered.value, p)
    else bordered
  }

  /** `doc` is `base` after the reconciler's own border and spacing edits, and nothing else. */
  ghost predicate AuthoredFrom(e: Editors, base: Document, doc: Document) {
    exists p, border, spacing :: (border || spacing) && OwnEdits(e, base, p, border, spacing) == Some(doc)
  }

  /** A status is Managed or Unmanaged only when the authority says so too; during a preview
      it can at best be Previewing. */
  function AuthorityBound(a: Snapshot, m: ManagementStatus, preview: Generation): ManagementStatus {
    if preview != "" then
      if a.available && m.state == Managed && m.generation == preview then m.(state := Previewing)
      else m.(state := Conflict, generation := "")
    else
      var managed := a.available && a.generation != "" && m.state == Managed && m.generation == a.generation;
      var unmanaged := a.available && a.generation == "" && m.state == Unmanaged;
      if !managed && !unmanaged && m.state != Conflict then m.(state := Conflict, generation := "") else m
  }

  /** Ownership counts exactly for the generation the authority names, and a preview's only
      while it is the one that is live. */
  lemma StatusFollowsAuthority(a: Snapshot, m: ManagementStatus, preview: Generation)
    requires m.state != Previewing
    ensures var r := AuthorityBound(a, m, preview);
      && (r.state == Managed <==>
            preview == "" && a.available && a.generation != "" && m.state == Managed && m.generation == a.generation)
      && (r.state == Unmanaged <==> preview == "" && a.available && a.generation == "" && m.state == Unmanaged)
      && (r.state == Previewing <==> preview != "" && a.available && m.state == Managed && m.generation == preview)
      && (r.state in {Managed, Previewing} ==> r.generation == m.generation)
      && r.digest == m.digest && r.kind == m.kind
  {
  }

  function Unreconciled(s: Snapshot): Snapshot {
    s.(available := false, writable := false, applyState := Failed)
  }

  function ConflictStatus(m: ManagementStatus): ManagementStatus {
    m.(state := Conflict, kind := Unsafe, digest := "", generation := "")
  }

  predicate ExactCurrent(s: Snapshot, m: ManagementStatus) {
    && m.state == Managed
    && s.applyState == Current
    && s.appliedRevision == s.revision
    && s.required == None
    && s.generation != ""
    && m.generation == s.generation
  }

  predicate SameBorder(last: Option<Projection>, p: Projection) {
    last.Some? && last.value.syncBorders == p.syncBorders && last.value.border == p.border
  }

  predicate SameSpacing(last: Option<Projection>, p: Projection) {
    last.Some? && last.value.syncSpacing == p.syncSpacing && last.value.spacing == p.spacing
  }

  // ---- What a preview is told ----

  /** Every topology reported in between is the baseline's and realizes the profile, and
      every session opened is of the baseline's runtime. */
  ghost predicate Steady(before: seq<Proof>, after: seq<Proof>, baseline: Topology) {
    before <= after && forall i :: |before| <= i < |after| ==> Unmoved(after[i], baseline)
  }

  ghost predicate Unmoved(p: Proof, baseline: Topology) {
    && (p.Displays? ==>
          && p.topology.runtimeIdentity == baseline.runtimeIdentity && p.topology.digest == baseline.digest
          && p.topology.acceptsProfile && p.topology.realizesProfile)
    && (p.Opened? ==> p.identity == baseline.runtimeIdentity)
  }

  lemma SteadyParts(before: seq<Proof>, middle: seq<Proof>, after: seq<Proof>, baseline: Topology)
    requires Steady(before, after, baseline) && before <= middle <= after
    ensures Steady(before, middle, baseline) && Steady(middle, after, baseline)
  {
    assert forall i :: 0 <= i < |middle| ==> middle[i] == after[i];
  }

  lemma SteadySees(before: seq<Proof>, after: seq<Proof>, p: Proof, baseline: Topology)
    requires before + [p] <= after && Steady(before, after, baseline)
    ensures Unmoved(p, baseline)
  {
    assert after[|before|] == (before + [p])[|before|];
  }

  /** A topology was reported that is the baseline's and realizes the profile, and then the
      pending bridge and its exact target. */
  ghost predicate ProvedExact(before: seq<Proof>, after: seq<Proof>, baseline: Topology, receipt: nat,
                              pending: Option<Bridge>)
  {
    exists t :: SameDisplays(t, baseline) && after == before + ExactProofs(t, receipt, pending)
  }

  ghost predicate SameDisplays(t: Topology, baseline: Topology) {
    && t.runtimeIdentity == baseline.runtimeIdentity && t.digest == baseline.digest
    && t.acceptsProfile && t.realizesProfile
  }

  ghost function ExactProofs(t: Topology, receipt: nat, pending: Option<Bridge>): seq<Proof> {
    [Displays(t), Bridged(pending), Exact(receipt, true)]
  }

  lemma SteadyOpens(before: seq<Proof>, middle: seq<Proof>, after: seq<Proof>, identity: string, g: Generation,
                    receipt: nat, baseline: Topology)
    requires middle == before + ActivationProofs(false, identity, g, receipt)
    requires middle <= after && Steady(before, after, baseline)
    ensures identity == baseline.runtimeIdentity
  {
    assert after[|before| + 1] == middle[|before| + 1] == Opened(ManagedReload, identity);
    assert Unmoved(after[|before| + 1], baseline);
  }

  /** A generation went live in the baseline's runtime and was then proved exact. */
  ghost function LiveProofs(baseline: Topology, g: Generation, t: Topology, receipt: nat, prior: Generation)
    : seq<Proof>
  {
    ActivationProofs(false, baseline.runtimeIdentity, g, receipt)
    + ExactProofs(t, receipt, Some(Bridge(receipt, g, prior)))
  }

  ghost predicate ProvedLive(before: seq<Proof>, after: seq<Proof>, baseline: Topology, g: Generation, receipt: nat,
                             prior: Generation)
  {
    exists t :: SameDisplays(t, baseline) && after == before + LiveProofs(baseline, g, t, receipt, prior)
  }

  lemma ComposeLive(before: seq<Proof>, middle: seq<Proof>, after: seq<Proof>, baseline: Topology, g: Generation,
                    receipt: nat, d: Disk, exact: bool)
    requires middle == before + ActivationProofs(false, baseline.runtimeIdentity, g, receipt)
    requires d.bridge == Some(Bridge(receipt, g, d.committed))
    requires exact ==> ProvedExact(middle, after, baseline, receipt, d.bridge)
    ensures exact ==> ProvedLive(before, after, baseline, g, receipt, d.committed)
  {
    if exact {
      var t :| SameDisplays(t, baseline) && after == middle + ExactProofs(t, receipt, d.bridge);
      assert after == before + LiveProofs(baseline, g, t, receipt, d.committed);
    }
  }

  /** The owner is asked between two readings of the deadline. */
  ghost function OwnerProofs(owner: string): seq<Proof> {
    [InTime, Present(owner), InTime]
  }

  lemma ComposePresent(before: seq<Proof>, middle: seq<Proof>, after: seq<Proof>, owner: string)
    requires Proved(before, middle, [Present(owner)]) && after == middle + [InTime]
    ensures Proved(before, after, [Present(owner), InTime])
  {
    ProvedBy(middle, after, [InTime]);
    ProvedThen(before, middle, after, [Present(owner)], [InTime]);
    assert [Present(owner)] + [InTime] == [Present(owner), InTime];
  }

  lemma ComposeOwner(before: seq<Proof>, middle: seq<Proof>, after: seq<Proof>, owner: string)
    requires middle == before + [InTime] && Proved(middle, after, [Present(owner), InTime])
    ensures Proved(before, after, OwnerProofs(owner))
  {
    ProvedBy(before, middle, [InTime]);
    ProvedThen(before, middle, after, [InTime], [Present(owner), InTime]);
  }

  ghost predicate ProvedOwned(before: seq<Proof>, after: seq<Proof>, baseline: Topology, g: Generation, receipt: nat,
                              prior: Generation, owner: string)
  {
    exists t ::
      && SameDisplays(t, baseline)
      && Proved(before, after, LiveProofs(baseline, g, t, receipt, prior) + OwnerProofs(owner))
  }

  lemma ComposeOwned(before: seq<Proof>, middle: seq<Proof>, after: seq<Proof>, baseline: Topology, g: Generation,
                     receipt: nat, prior: Generation, owner: string)
    requires ProvedLive(before, middle, baseline, g, receipt, prior)
    requires Proved(middle, after, OwnerProofs(owner))
    ensures ProvedOwned(before, after, baseline, g, receipt, prior, owner)
  {
    var t :| SameDisplays(t, baseline) && middle == before + LiveProofs(baseline, g, t, receipt, prior);
    ProvedBy(before, middle, LiveProofs(baseline, g, t, receipt, prior));
    ProvedThen(before, middle, after, LiveProofs(baseline, g, t, receipt, prior), OwnerProofs(owner));
  }

  /** What a caller's token stands for: the displays before, a qualified generation of the
      next revision, its activation, the same displays realizing the profile, the exact
      target, and the owner in time. */
  ghost predicate PreviewProved(before: seq<Proof>, after: seq<Proof>, p: PreparedGeneration, c: DisplayConfirmation,
                                prior: Generation)
  {
    && p.complete && p.qualified && p.requirement == Reload
    && p.id == c.generation && p.revision == c.previewRevision
    && c.baseline.acceptsProfile && c.baseline.runtimeIdentity != ""
    && exists t ::
         && SameDisplays(t, c.baseline)
         && Proved(before, after, [Displays(c.baseline), Given(p), Satisfies(Reload)]
                                  + (LiveProofs(c.baseline, p.id, t, c.receipt, prior) + OwnerProofs(c.owner)))
  }

  lemma ComposePreview(before: seq<Proof>, middle: seq<Proof>, after: seq<Proof>, p: PreparedGeneration,
                       c: DisplayConfirmation, prior: Generation)
    requires middle == before + [Displays(c.baseline), Given(p), Satisfies(Reload)]
    requires ProvedOwned(middle, after, c.baseline, c.generation, c.receipt, prior, c.owner)
    requires p.complete && p.qualified && p.requirement == Reload
    requires p.id == c.generation && p.revision == c.previewRevision
    requires c.baseline.acceptsProfile && c.baseline.runtimeIdentity != ""
    ensures PreviewProved(before, after, p, c, prior)
  {
    var t :| && SameDisplays(t, c.baseline)
             && Proved(middle, after, LiveProofs(c.baseline, p.id, t, c.receipt, prior) + OwnerProofs(c.owner));
    ProvedBy(before, middle, [Displays(c.baseline), Given(p), Satisfies(Reload)]);
    ProvedThen(before, middle, after, [Displays(c.baseline), Given(p), Satisfies(Reload)],
               LiveProofs(c.baseline, p.id, t, c.receipt, prior) + OwnerProofs(c.owner));
  }

  /** The first answer shows displays that accept the profile, and nothing moves after it. */
  ghost predicate Favourable(before: seq<Proof>, after: seq<Proof>) {
    && before < after && after[|before|].Displays?
    && after[|before|].topology.acceptsProfile && after[|before|].topology.runtimeIdentity != ""
    && Steady(after[..|before| + 1], after, after[|before|].topology)
  }

  lemma FavourableFirst(before: seq<Proof>, after: seq<Proof>)
    requires Favourable(before, after)
    ensures forall t :: after == before + [Displays(t)] ==> t.acceptsProfile && t.runtimeIdentity != ""
  {
    forall t | after == before + [Displays(t)]
      ensures t.acceptsProfile && t.runtimeIdentity != ""
    {
      assert after[|before|] == Displays(t);
    }
  }

  lemma FavourableRest(before: seq<Proof>, first: seq<Proof>, middle: seq<Proof>, after: seq<Proof>, t: Topology)
    requires Favourable(before, after) && first == before + [Displays(t)] && first <= middle <= after
    ensures t.acceptsProfile && t.runtimeIdentity != "" && Steady(middle, after, t)
  {
    assert after[|before|] == first[|before|] == Displays(t);
    assert after[..|before| + 1] == first;
    SteadyParts(first, middle, after, t);
  }

  /** Every answer a confirmation rests on before its commit. */
  ghost function ConfirmProofs(c: DisplayConfirmation, t: Topology, pending: Option<Bridge>): seq<Proof> {
    [InTime] + ExactProofs(t, c.receipt, pending) + OwnerProofs(c.owner)
  }

  ghost predicate ProvedDisplayed(before: seq<Proof>, after: seq<Proof>, c: DisplayConfirmation,
                                  pending: Option<Bridge>)
  {
    exists t ::
      SameDisplays(t, c.baseline) && after == before + [InTime] + ExactProofs(t, c.receipt, pending) + [InTime]
  }

  ghost predicate ProvedConfirmable(before: seq<Proof>, after: seq<Proof>, c: DisplayConfirmation,
                                    pending: Option<Bridge>)
  {
    exists t :: SameDisplays(t, c.baseline) && Proved(before, after, ConfirmProofs(c, t, pending))
  }

  /** The same, and the bridge again before it is removed. */
  ghost predicate ConfirmProved(before: seq<Proof>, after: seq<Proof>, c: DisplayConfirmation,
                                pending: Option<Bridge>)
  {
    exists t :: SameDisplays(t, c.baseline) && Proved(before, after, ConfirmProofs(c, t, pending) + [Bridged(pending)])
  }

  lemma ComposeConfirmable(before: seq<Proof>, middle: seq<Proof>, after: seq<Proof>, c: DisplayConfirmation,
                           pending: Option<Bridge>)
    requires ProvedDisplayed(before, middle, c, pending) && Proved(middle, after, [Present(c.owner), InTime])
    ensures ProvedConfirmable(before, after, c, pending)
  {
    var t :| SameDisplays(t, c.baseline) && middle == before + [InTime] + ExactProofs(t, c.receipt, pending) + [InTime];
    var first, second := [InTime] + ExactProofs(t, c.receipt, pending) + [InTime], [Present(c.owner), InTime];
    assert middle == before + first;
    ProvedBy(before, middle, first);
    ProvedThen(before, middle, after, first, second);
    assert first + second == ConfirmProofs(c, t, pending);
  }

  lemma ComposeConfirmed(before: seq<Proof>, middle: seq<Proof>, after: seq<Proof>, c: DisplayConfirmation,
                         pending: Option<Bridge>)
    requires ProvedConfirmable(before, middle, c, pending) && after == middle + [Bridged(pending)]
    ensures ConfirmProved(before, after, c, pending)
  {
    var t :| SameDisplays(t, c.baseline) && Proved(before, middle, ConfirmProofs(c, t, pending));
    ProvedBy(middle, after, [Bridged(pending)]);
    ProvedThen(before, middle, after, ConfirmProofs(c, t, pending), [Bridged(pending)]);
  }

  class CompositorService {
    const world: World
    const authority: ConfigurationAuthority
    const backend: LiveActivationBackend
    const editors: Editors
    var snapshot: Snapshot
    var management: ManagementStatus
    var confirmation: Option<DisplayConfirmation>
    var terminal: Option<DisplayTerminal>
    var confirmationState: ConfirmationState
    var installs: nat
    var source: Option<Projection>
    var lastProjection: Option<Projection>
    var pendingRevision: Option<nat>
    var pendingBorder: bool
    var pendingSpacing: bool

    // ---- What always holds ----

    ghost predicate Wired()
      reads world, backend
    {
      && authority.world == world
      && backend.world == world
      && backend.Valid()
    }

    ghost function Now(): Monitor
      reads world
    {
      Observe(world.log)
    }

    /** An outstanding shared-visual apply is for a revision this service authored from the
        applied state. */
    ghost predicate PendingAuthored()
      reads `pendingRevision, authority
    {
      && (pendingRevision.Some? ==> pendingRevision.value <= authority.revision)
      && (pendingRevision == Some(authority.revision) && authority.appliedRevision != authority.revision ==>
            AuthoredFrom(editors, authority.applied, authority.desired))
    }

    ghost predicate Base()
      reads `installs, `pendingRevision, world, backend, authority
    {
      && Wired()
      && authority.Consistent()
      && AllCrashSafe(world.trace)
      && Accepted(world.log)
      && Now().installs == installs
      && PendingAuthored()
    }

    /** The backend is operational and believes what the authority committed. */
    ghost predicate Bound()
      reads world, backend
    {
      && backend.filesystemBound
      && backend.versionPolicyConfigured
      && !backend.finalizationFailed
      && backend.committedGeneration == world.disk.committed
    }

    ghost predicate QuietAndSettled()
      reads world, backend
    {
      && Bound()
      && Settled(world.disk)
      && Now().phase == Quiet
    }

    ghost predicate Previewed(c: DisplayConfirmation)
      reads `installs, world, backend
    {
      && Bound()
      && c.serial < installs
      && c.generation != "" && c.receipt != 0
      && (if c.liveRolledBack then
            && c.terminationStarted
            && Now().phase == Restored(Some(c.serial))
            && Undone(world.disk) && world.running == world.disk.committed
            && world.disk.journal in {Prepared(c.generation), NoJournal}
          else
            && Now().phase == Preview(c.serial, c.terminationStarted)
            && Undoable(world.disk)
            && world.disk.journal == Prepared(c.generation)
            && (!c.terminationStarted ==>
                  TargetLive(world.disk, c.receipt, c.generation) && world.running == c.generation))
    }

    ghost predicate Valid()
      reads this, world, backend, authority
    {
      && Base()
      && (snapshot.available ==> snapshot == authority.Published())
      && match confirmation
         case None => snapshot.available ==> QuietAndSettled()
         case Some(c) =>
           && Previewed(c) && terminal.None? && confirmationState != Idle
           && (c.terminationStarted ==> !snapshot.available)
    }

    /** Unreconciled with no capability installed. */
    predicate FailedClosed()
      reads this
    {
      confirmation.None? && !snapshot.available
    }

    twostate predicate Inert()
      reads this, world, authority, backend
    {
      && FailedClosed()
      && world.log == old(world.log)
      && world.trace == old(world.trace)
      && world.running == old(world.running)
      && unchanged(authority)
      && unchanged(backend)
    }

    constructor (d: Disk, editors: Editors)
      requires CrashSafe(d)
      ensures Valid() && FailedClosed()
      ensures world.disk == d && world.trace == [d] && world.log == []
      ensures !backend.filesystemBound && backend.versionPolicyConfigured && !backend.finalizationFailed
      ensures fresh(world) && fresh(authority) && fresh(backend)
      ensures this.editors == editors && source == lastProjection == None && pendingRevision == None
      ensures confirmation.None? && terminal.None? && confirmationState == Idle && installs == 0
      ensures management.state == Unmanaged && management.generation == ""
      ensures !snapshot.available && !snapshot.writable && snapshot.generation == ""
    {
      var w := new World(d);
      world := w;
      authority := new ConfigurationAuthority(w);
      backend := new LiveActivationBackend(w);
      this.editors := editors;
      snapshot := Snapshot(false, false, 0, 0, Failed, None, "", "", "");
      management := ManagementStatus(Unmanaged, Absent, "", "");
      confirmation, terminal, confirmationState, installs := None, None, Idle, 0;
      source, lastProjection := None, None;
      pendingRevision, pendingBorder, pendingSpacing := None, false, false;
      new;
      backend.SetVersionPolicy();
    }

    // ---- Accepting what the two parties report ----

    method AcceptState(next: Snapshot, nextManagement: ManagementStatus)
      requires Base()
      modifies this`snapshot, this`management, this`pendingRevision, this`pendingBorder, this`pendingSpacing
      ensures Base()
      ensures snapshot == next
      ensures management == AuthorityBound(next, nextManagement,
                  if confirmation.Some? then confirmation.value.generation else "")
      ensures pendingRevision ==
          if old(pendingRevision) == Some(next.revision) then old(pendingRevision) else None
      ensures pendingBorder == (old(pendingBorder) && old(pendingRevision) in {None, pendingRevision})
      ensures pendingSpacing == (old(pendingSpacing) && old(pendingRevision) in {None, pendingRevision})
    {
      management := AuthorityBound(next, nextManagement,
                                   if confirmation.Some? then confirmation.value.generation else "");
      if pendingRevision.Some? && next.revision != pendingRevision.value {
        pendingRevision, pendingBorder, pendingSpacing := None, false, false;
      }
      snapshot := next;
    }

    method AcceptUnreconciled(s: Snapshot, live: ManagementStatus)
      requires Base()
      modifies this`snapshot, this`management, this`confirmationState,
        this`pendingRevision, this`pendingBorder, this`pendingSpacing
      ensures Base()
      ensures !snapshot.available && !snapshot.writable && snapshot.applyState == Failed
      ensures confirmationState == DisplayFailed && management.state == Conflict && management.generation == ""
    {
      confirmationState := DisplayFailed;
      AcceptState(Unreconciled(s), ConflictStatus(live));
    }

    // ---- Startup ----

    /** A new process on whatever disk the last one left. From every crash-safe disk, the
        service comes up settled on the startup decision or stays unavailable. */
    method InitializeAuthority() returns (ok: bool)
      requires Valid() && FailedClosed() && installs == 0 && world.log == []
      requires backend.versionPolicyConfigured && !backend.finalizationFailed && !backend.filesystemBound
      modifies this, world, backend, authority
      ensures Base()
      ensures ok ==> Valid() && confirmation.None?
      ensures !ok ==> FailedClosed()
      ensures ok ==>
          && snapshot.revision == authority.revision && snapshot.appliedRevision == authority.appliedRevision
          && snapshot.desired == authority.desired && snapshot.generation == world.disk.committed
      ensures ok && !snapshot.available ==> management.state == Conflict && snapshot.applyState == Failed
      ensures ok && snapshot.available ==>
          && Settled(world.disk) && world.disk.committed == Decision(old(world.disk))
          && management.state == (if snapshot.generation == "" then Unmanaged else Managed)
          && management.generation == snapshot.generation
      ensures world.refusals == old(world.refusals) ==>
          ok && snapshot.available && management.state != Conflict
    {
      pendingRevision := None;
      var initialized := Recover();
      if !initialized.success || !initialized.snapshot.available {
        return false;
      }
      var startup := Reconcile(initialized.snapshot.generation);
      if !startup.success {
        AcceptState(Unreconciled(initialized.snapshot), startup.status.(state := Conflict));
      } else {
        AcceptState(initialized.snapshot, startup.status);
      }
      ok := true;
    }

    method Recover() returns (r: AuthorityResult)
      requires Base() && pendingRevision.None?
      modifies world`disk, world`trace, world`refusals, authority
      ensures Base()
      ensures world.refusals >= old(world.refusals)
      ensures r.success ==>
          world.disk == Initialized(old(world.disk)) && authority.Reports(r.snapshot)
      ensures world.refusals == old(world.refusals) ==> r.success && r.snapshot.available
    {
      hide Observe;
      ghost var before := world.disk;
      assert CrashSafe(before) by {
        assert world.trace[|world.trace| - 1] == before;
      }
      r := authority.Initialize();
      GrewSafely(old(world.trace), world.trace,
                 {before, before.(committed := Decision(before)), Initialized(before)});
    }

    method Reconcile(committed: Generation) returns (r: BackendResult)
      requires Base() && world.disk.journal == NoJournal && world.disk.committed == committed
      requires backend.versionPolicyConfigured && !backend.finalizationFailed && !backend.filesystemBound
      modifies backend, world`disk, world`trace, world`running, world`refusals, world`proofs
      ensures Base()
      ensures world.refusals >= old(world.refusals)
      ensures r.reason != NeitherSide
      ensures r.success ==>
          && Settled(world.disk) && world.disk.committed == committed && Bound()
          && r.status.state == (if committed == "" then Unmanaged else Managed)
          && r.status.generation == committed
      ensures world.disk.committed == committed
      ensures world.refusals == old(world.refusals) ==> r.success
    {
      hide Observe;
      assert CrashSafe(world.disk) by {
        assert world.trace[|world.trace| - 1] == world.disk;
      }
      var bound := backend.BindFilesystemContext();
      r := BackendResult(false, ApplyFailed, management);
      if bound {
        r := backend.ReconcileStartup(committed);
      }
    }

    // ---- One prepared transaction, to its end ----

    /** What a prepare call may leave behind. */
    ghost predicate Handed(r: AuthorityResult)
      reads this, world, backend, authority
    {
      && Wired()
      && Bound()
      && authority.Reports(r.snapshot) && (r.snapshot.available || r.snapshot.applyState == Failed)
      && (if r.success && r.prepared.Some? then
            ReadyToPublish(world.disk, r.prepared.value.id) && Now().phase == Staged
          else
            Now().phase == Quiet && (!r.success && r.snapshot.available ==> Settled(world.disk)))
    }

    /** Activated for `g` but not decided; `may` tells whether anything may be live. */
    ghost predicate Undecided(g: Generation, may: bool)
      reads this, world, backend
    {
      && Bound()
      && Undoable(world.disk)
      && world.disk.journal == Prepared(g)
      && Now().phase == Live(may)
      && (!may ==> Undone(world.disk))
    }

    method Prepare(expectedRevision: nat, staged: Option<Document>) returns (r: AuthorityResult)
      requires Base() && QuietAndSettled()
      modifies world, authority`staged
      ensures Base() && Handed(r)
      ensures world.refusals >= old(world.refusals)
      ensures !r.success ==> world.log == old(world.log)
      ensures world.disk.committed == old(world.disk).committed
      ensures r.success && r.prepared.Some? ==> expectedRevision == authority.revision && authority.staged == staged
      ensures world.refusals == old(world.refusals) ==>
          r.success && r.snapshot.available && r.prepared.Some? && authority.Expected(r.prepared.value, staged)
      ensures world.proofs ==
          old(world.proofs) + (if r.success && r.prepared.Some? then [Given(r.prepared.value)] else [])
      ensures r.success ==> r.snapshot == authority.Published()
      ensures world.running == old(world.running) && world.disk.entrypoint == old(world.disk).entrypoint
    {
      hide Observe;
      ghost var before, trace0, log0 := world.disk, world.trace, world.log;
      ghost var g;
      r, g := authority.Prepare(expectedRevision, staged);
      GrewSafely(trace0, world.trace, PrepareStates(before, g));
      ObserveAppend(log0, PrepareSucceeded);
      assert log0 + [] == log0;
    }

    /** The phases in which `abortApply` may be called for a transaction with nothing live. */
    ghost predicate Abortable(p: Phase) {
      p == Staged || p == Live(false) || p.Restored?
    }

    method Abort(g: Generation) returns (r: AuthorityResult)
      requires Base() && Undone(world.disk) && world.disk.journal in {Prepared(g), NoJournal}
      requires Abortable(Now().phase)
      modifies world`disk, world`trace, world`log, world`refusals, authority`staged
      ensures Base() && Undone(world.disk) && world.disk.journal in {Prepared(g), NoJournal}
      ensures world.refusals >= old(world.refusals)
      ensures authority.Reports(r.snapshot) && (r.snapshot.available || r.snapshot.applyState == Failed)
      ensures world.disk.committed == old(world.disk).committed
      ensures world.log == old(world.log) + [AbortCalled(r.success)]
      ensures r.success ==>
          && Settled(world.disk)
          && Now().phase == (match SerialOf(old(Now()).phase) case None => Quiet case Some(s) => Ending(s))
      ensures !r.success && SerialOf(old(Now()).phase).Some? ==> Now().phase == old(Now()).phase
      ensures world.refusals == old(world.refusals) ==> r.success && r.snapshot.available
    {
      hide Observe;
      ghost var before, trace0, log0 := world.disk, world.trace, world.log;
      r := authority.AbortApply(g);
      ObserveAppend(log0, AbortCalled(r.success));
      GrewSafely(trace0, world.trace, AbortStates(before) + {before});
    }

    /** A status that names the generation as the one that is live and owned. */
    ghost predicate Names(m: ManagementStatus, g: Generation) {
      m.generation == g && m.state == if g == "" then Unmanaged else Managed
    }

    /** Undo what may be live, then abort the journal; either failure leaves the transaction
        to startup. */
    method UndoAndAbort(undo: bool, ghost may: bool, receipt: nat, g: Generation, s: Snapshot, m: ManagementStatus)
      returns (ok: bool, snap: Snapshot, live: ManagementStatus)
      requires Base() && Undecided(g, may) && (may ==> undo)
      requires authority.Reports(s)
      modifies world, authority`staged
      ensures Base() && Bound()
      ensures authority.Reports(snap)
      ensures ok ==> QuietAndSettled() && (snap.available || snap.applyState == Failed)
      ensures world.disk.committed == old(world.disk).committed
      ensures world.refusals >= old(world.refusals) && old(world.proofs) <= world.proofs
      ensures (world.refusals == old(world.refusals)
          && (undo ==> receipt != 0 && TargetLive(old(world.disk), receipt, g))) ==> ok && snap.available
      ensures !undo ==> world.running == old(world.running) && world.disk.entrypoint == old(world.disk).entrypoint
      ensures ok && undo ==> world.running == world.disk.committed
      ensures undo ==> old(world.log) < world.log && world.log[|old(world.log)|].RollbackCalled?
      ensures ok ==> world.log == old(world.log) + (if undo then [RollbackCalled(true)] else []) + [AbortCalled(true)]
      ensures if ok && undo then Names(live, world.disk.committed) else !undo ==> live == m
    {
      hide Observe;
      snap, live := s, m;
      if undo {
        ghost var log0 := world.log;
        var rolledBack := backend.Rollback(receipt);
        ObserveAppend(log0, RollbackCalled(rolledBack.success));
        live := rolledBack.status;
        if !rolledBack.success {
          return false, snap, live;
        }
      }
      var aborted := Abort(g);
      ok, snap := aborted.success, aborted.snapshot;
    }

    method Commit(g: Generation) returns (r: AuthorityResult)
      requires Base() && Bound()
      requires exists receipt :: receipt != 0 && TargetLive(world.disk, receipt, g)
      requires world.disk.journal == Prepared(g) && g != ""
      requires Now().phase == Live(true) || (Now().phase.Preview? && !Now().phase.terminating)
      modifies world, authority
      ensures Base()
      ensures world.log == old(world.log)
          + [CommitCalled(r.success || r.commitDecisionMayExist || r.commitDecisionDurable, r.success)]
      ensures world.running == old(world.running) && world.proofs == old(world.proofs)
      ensures authority.applied in {old(authority.applied), old(authority.Intended())}
      ensures world.refusals >= old(world.refusals)
      ensures authority.requirement == old(authority.requirement)
      ensures authority.Reports(r.snapshot) && (r.snapshot.available || r.snapshot.applyState == Failed)
      ensures r.success ==>
          && world.disk == old(world.disk).(journal := NoJournal, committed := g)
          && Now().phase == Decided(SerialOf(old(Now()).phase))
          && r.snapshot.generation == g && r.snapshot.appliedRevision == r.snapshot.revision
          && authority.applied == authority.desired == old(authority.Intended())
          && authority.appliedRevision == authority.revision
          && authority.revision == old(authority.revision) + (if old(authority.staged).Some? then 1 else 0)
      ensures !r.success && !r.commitDecisionMayExist && !r.commitDecisionDurable ==>
          && world.disk == old(world.disk) && Now().phase == old(Now()).phase
          && authority.Published() == old(authority.Published())
      ensures world.refusals == old(world.refusals) ==> r.success && r.snapshot.available
    {
      hide Observe;
      ghost var before, trace0, log0 := world.disk, world.trace, world.log;
      r := authority.CommitApply(g);
      ObserveAppend(log0, CommitCalled(r.success || r.commitDecisionMayExist || r.commitDecisionDurable, r.success));
      GrewSafely(trace0, world.trace, CommitStates(before, g));
    }

    method Finalize(receipt: nat, g: Generation) returns (r: BackendResult)
      requires Base() && Now().phase.Decided?
      requires CrashSafe(world.disk) && world.disk.journal == NoJournal && world.disk.committed == g
      requires world.disk.bridge == Some(Bridge(receipt, g, world.disk.ownership)) && world.disk.entrypoint == g
      requires backend.filesystemBound && backend.versionPolicyConfigured && !backend.finalizationFailed
      modifies world, backend
      ensures Base()
      ensures world.running == old(world.running)
      ensures world.log == old(world.log) + [FinalizeCalled(r.success)]
      ensures world.refusals >= old(world.refusals) && old(world.proofs) <= world.proofs
      ensures world.disk.committed == g
      ensures r.success ==>
          && Bound() && Settled(world.disk)
          && world.proofs == old(world.proofs) + [Bridged(old(world.disk).bridge)]
          && r.status.state == Managed && r.status.generation == g
          && Now().phase == (match old(Now()).phase.capability case None => Quiet case Some(s) => Confirming(s))
      ensures world.refusals == old(world.refusals) ==> r.success
    {
      hide Observe;
      ghost var log0 := world.log;
      r := backend.FinalizeCommitted(receipt, g);
      ObserveAppend(log0, FinalizeCalled(r.success));
    }

    /** What a transaction that succeeds was told before its commit and its finalization. */
    ghost predicate CompletionProved(before: seq<Proof>, after: seq<Proof>, g: Generation, prior: Generation,
                                     adoption: bool)
    {
      exists identity, receipt ::
        after == before + [Satisfies(Reload)] + ActivationProofs(adoption, identity, g, receipt)
                 + [Bridged(Some(Bridge(receipt, g, prior)))]
    }

    /** A qualified generation was handed out, put live, committed and finalized. */
    ghost predicate TransactionProved(before: seq<Proof>, after: seq<Proof>, g: Generation, prior: Generation,
                                      adoption: bool)
    {
      exists p: PreparedGeneration ::
        && p.complete && p.qualified && p.requirement == Reload && p.id == g
        && CompletionProved(before + [Given(p)], after, g, prior, adoption)
    }

    method Activate(prepared: PreparedGeneration, adoption: bool) returns (r: ActivationResult)
      requires Base() && Bound() && Now().phase == Staged
      requires ReadyToPublish(world.disk, prepared.id)
      modifies world
      ensures Base() && Undecided(prepared.id, r.mayHaveOccurred)
      ensures r.success ==> world.running == prepared.id
      ensures r.mayHaveOccurred ==>
          && prepared.qualified && prepared.requirement == Reload
          && adoption == (old(world.disk).committed == "")
      ensures !r.mayHaveOccurred ==> world.disk == old(world.disk) && world.running == old(world.running)
      ensures r.mayHaveOccurred && !r.success ==> world.refusals > old(world.refusals)
      ensures r.success ==>
          world.proofs == old(world.proofs) + ActivationProofs(adoption, r.runtimeIdentity, prepared.id, r.receipt)
      ensures r.success ==> r.mayHaveOccurred && r.receipt != 0 && TargetLive(world.disk, r.receipt, prepared.id)
      ensures world.disk.committed == old(world.disk).committed
      ensures world.refusals >= old(world.refusals) && old(world.proofs) <= world.proofs
      ensures (world.refusals == old(world.refusals) && prepared.requirement == Reload && prepared.qualified
          && adoption == (world.disk.committed == "")) ==>
          r.success && r.generation == prepared.id && r.confirmedRequirement == prepared.requirement
    {
      hide Observe;
      ghost var log0 := world.log;
      r := backend.PublishAndActivate(prepared, adoption);
      ObserveAppend(log0, Activated(r.mayHaveOccurred));
    }

    /** `completePrepared`. */
    method CompletePrepared(prepared: AuthorityResult, adoption: bool, expected: Option<Requirement>)
      returns (c: Completion)
      requires Base() && Handed(prepared)
      modifies world, backend, authority
      ensures Base()
      ensures c.success ==> world.running == world.disk.committed
      ensures !prepared.success || prepared.prepared.None? ==> authority.applied == old(authority.applied)
      ensures authority.applied in {old(authority.applied), old(authority.Intended())}
      ensures world.refusals >= old(world.refusals)
      ensures authority.requirement == old(authority.requirement)
      ensures authority.Reports(c.snapshot) && (c.snapshot.available || c.snapshot.applyState == Failed)
      ensures c.snapshot.available ==> QuietAndSettled()
      ensures c.success ==>
          && prepared.success && prepared.prepared.Some? && prepared.prepared.value.complete
          && QuietAndSettled() && world.disk.committed == prepared.prepared.value.id
          && c.snapshot.generation == prepared.prepared.value.id && c.snapshot.appliedRevision == c.snapshot.revision
          && c.management.state == Managed && c.management.generation == prepared.prepared.value.id
      ensures c.success ==> CompletionProved(old(world.proofs), world.proofs, prepared.prepared.value.id,
                                             old(world.disk).committed, adoption)
      ensures c.success ==>
          && prepared.prepared.value.qualified && prepared.prepared.value.requirement == Reload
          && expected in {None, Some(Reload)} && adoption == (old(world.disk).committed == "")
          && authority.applied == authority.desired == old(authority.Intended())
          && authority.revision == old(authority.revision) + (if old(authority.staged).Some? then 1 else 0)
      ensures prepared.success && prepared.prepared.Some? && !prepared.prepared.value.qualified ==>
          && !c.success && world.running == old(world.running)
          && world.disk.entrypoint == old(world.disk).entrypoint
      ensures !c.success && c.snapshot.available ==>
          && world.disk.committed == old(world.disk).committed
      ensures (world.refusals == old(world.refusals) && prepared.success && prepared.snapshot.available
          && prepared.prepared.Some? && prepared.prepared.value.complete) ==> c.snapshot.available
      ensures (world.refusals == old(world.refusals) && prepared.success && prepared.prepared.Some?
          && prepared.prepared.value.complete && prepared.prepared.value.qualified
          && prepared.prepared.value.requirement == Reload && (expected == None || expected == Some(Reload))
          && adoption == (old(world.disk).committed == "")) ==> c.success && c.snapshot.available
    {
      hide Observe, CrashSafe, Undoable, Undone, AllCrashSafe, Accepted, AuthoredFrom;
      var live := backend.Status();
      c := Completion(false, prepared.snapshot, live);
      if !prepared.success {
        return;
      }
      if prepared.prepared.None? || !prepared.prepared.value.complete {
        return c.(snapshot := Unreconciled(c.snapshot));
      }
      var generation := prepared.prepared.value;
      if expected.Some? && generation.requirement != expected.value {
        c := AbortStaged(generation.id, c);
        return;
      }
      var satisfied := backend.CanSatisfy(generation.requirement);
      if !satisfied {
        c := AbortStaged(generation.id, c);
        return;
      }
      var activated := Activate(generation, adoption);
      c := c.(management := activated.status);
      if !activated.success {
        c := GiveUp(activated.mayHaveOccurred, activated.mayHaveOccurred, activated.receipt, generation.id, c);
        return;
      }
      if !activated.mayHaveOccurred || activated.generation != generation.id
         || activated.confirmedRequirement != generation.requirement {
        c := GiveUp(true, true, activated.receipt, generation.id, c);
        return;
      }
      c := Decide(activated.receipt, generation.id, c);
    }

    /** The second half of `completePrepared`: commit what is live, then finalize it. */
    method Decide(receipt: nat, g: Generation, c0: Completion) returns (c: Completion)
      requires Base() && Undecided(g, true) && receipt != 0 && g != "" && TargetLive(world.disk, receipt, g)
      modifies world, backend, authority
      ensures Base()
      ensures c.success ==>
          && world.running == old(world.running)
          && world.proofs == old(world.proofs) + [Bridged(old(world.disk).bridge)]
      ensures authority.applied in {old(authority.applied), old(authority.Intended())}
      ensures world.refusals >= old(world.refusals)
      ensures authority.requirement == old(authority.requirement)
      ensures authority.Reports(c.snapshot) && (c.snapshot.available || c.snapshot.applyState == Failed)
      ensures c.snapshot.available ==> QuietAndSettled()
      ensures c.success ==>
          && QuietAndSettled() && world.disk.committed == g
          && c.snapshot.generation == g && c.snapshot.appliedRevision == c.snapshot.revision
          && c.management.state == Managed && c.management.generation == g
          && authority.applied == authority.desired == old(authority.Intended())
          && authority.revision == old(authority.revision) + (if old(authority.staged).Some? then 1 else 0)
      ensures !c.success && c.snapshot.available ==> world.disk.committed == old(world.disk).committed
      ensures old(world.log) < world.log && world.log[|old(world.log)|].CommitCalled?
      ensures world.log[|old(world.log)|] == CommitCalled(false, false) ==>
          |world.log| > |old(world.log)| + 1 && world.log[|old(world.log)| + 1].RollbackCalled?
      ensures !c.success && c.snapshot.available ==> Names(c.management, world.disk.committed)
      ensures world.refusals == old(world.refusals) ==> c.success && c.snapshot.available
    {
      hide Observe;
      var committed := Commit(g);
      if !committed.success {
        c := c0.(success := false, snapshot := committed.snapshot);
        if !committed.commitDecisionMayExist && !committed.commitDecisionDurable {
          assert Undecided(g, true);
          c := GiveUp(true, true, receipt, g, c);
          return;
        }
        return c.(snapshot := Unreconciled(c.snapshot), management := ConflictStatus(c.management));
      }
      var finalized := Finalize(receipt, g);
      c := Completion(false, committed.snapshot, finalized.status);
      if !finalized.success || finalized.status.state != Managed || finalized.status.generation != g {
        return c.(snapshot := Unreconciled(c.snapshot), management := ConflictStatus(c.management));
      }
      c := c.(success := true);
    }

    method AbortStaged(g: Generation, c: Completion) returns (r: Completion)
      requires Base() && Bound() && Now().phase == Staged && ReadyToPublish(world.disk, g)
      modifies world, authority`staged
      ensures Base() && !r.success
      ensures world.refusals >= old(world.refusals)
      ensures authority.Reports(r.snapshot) && (r.snapshot.available || r.snapshot.applyState == Failed)
      ensures r.snapshot.available ==> QuietAndSettled()
      ensures world.disk.committed == old(world.disk).committed && world.running == old(world.running)
      ensures world.disk.entrypoint == old(world.disk).entrypoint
      ensures world.refusals == old(world.refusals) ==> r.snapshot.available
    {
      hide Observe;
      var aborted := Abort(g);
      r := c.(success := false, snapshot := aborted.snapshot);
      if !aborted.success {
        r := r.(snapshot := Unreconciled(r.snapshot), management := ConflictStatus(r.management));
      }
    }

    method GiveUp(undo: bool, ghost may: bool, receipt: nat, g: Generation, c: Completion) returns (r: Completion)
      requires Base() && Undecided(g, may) && (may ==> undo)
      requires authority.Reports(c.snapshot)
      modifies world, authority`staged
      ensures Base() && !r.success
      ensures world.refusals >= old(world.refusals)
      ensures authority.Reports(r.snapshot) && (r.snapshot.available || r.snapshot.applyState == Failed)
      ensures r.snapshot.available ==> QuietAndSettled()
      ensures undo ==> old(world.log) < world.log && world.log[|old(world.log)|].RollbackCalled?
      ensures r.snapshot.available ==>
          && world.log == old(world.log) + (if undo then [RollbackCalled(true)] else []) + [AbortCalled(true)]
          && if undo then Names(r.management, world.disk.committed) else r.management == c.management
      ensures world.disk.committed == old(world.disk).committed
      ensures !undo ==> world.running == old(world.running) && world.disk.entrypoint == old(world.disk).entrypoint
      ensures (world.refusals == old(world.refusals)
          && (undo ==> receipt != 0 && TargetLive(old(world.disk), receipt, g))) ==> r.snapshot.available
    {
      hide Observe;
      var ok, snap, live := UndoAndAbort(undo, may, receipt, g, c.snapshot, c.management);
      r := if ok then Completion(false, snap, live)
      else Completion(false, Unreconciled(snap), ConflictStatus(live));
    }

    // ---- The display-preview capability ----

    method DeadlineRemaining() returns (ms: int)
      modifies world`refusals, world`proofs
      ensures world.refusals >= old(world.refusals)
      ensures ms <= 0 ==> world.refusals > old(world.refusals)
      ensures world.proofs == old(world.proofs) + if ms > 0 then [InTime] else []
    {
      ms := *;
      if ms > 0 {
        world.Prove(InTime);
      } else {
        world.Refuse();
      }
    }

    method DisplayTopologyStillExact(receipt: nat, g: Generation, baseline: Topology) returns (exact: bool)
      requires Base()
      modifies world`refusals, world`proofs
      ensures Base()
      ensures world.refusals >= old(world.refusals) && old(world.proofs) <= world.proofs
      ensures exact ==>
          && receipt != 0 && world.disk.bridge.Some? && world.disk.bridge.value.token == receipt
          && world.disk.bridge.value.target == world.disk.entrypoint == g
      ensures exact ==> ProvedExact(old(world.proofs), world.proofs, baseline, receipt, world.disk.bridge)
      ensures (Bound() && TargetLive(world.disk, receipt, g) && g != "" && receipt != 0
          && world.refusals == old(world.refusals)
          && Steady(old(world.proofs), world.proofs, baseline)) ==> exact
    {
      hide Observe;
      exact := false;
      var connected := backend.ConnectedDisplays();
      if connected.None? {
        return;
      }
      if connected.value.runtimeIdentity != baseline.runtimeIdentity
         || connected.value.digest != baseline.digest
         || !connected.value.acceptsProfile || !connected.value.realizesProfile {
        if Steady(old(world.proofs), world.proofs, baseline) {
          SteadySees(old(world.proofs), world.proofs, Displays(connected.value), baseline);
        }
        return;
      }
      var target := backend.VerifyPendingTarget(receipt, g);
      exact := target.success;
      if exact {
        assert world.proofs == old(world.proofs) + ExactProofs(connected.value, receipt, world.disk.bridge);
      }
    }

    /** `revertDisplayConfirmation`: undo the live preview (once), then abort its journal.
        Either failure keeps the capability installed, terminated, and the service closed. */
    method RevertDisplayConfirmation(action: TerminalAction) returns (ok: bool)
      requires Valid() && action != Confirmed
      modifies this, world, authority`staged
      ensures Valid()
      ensures world.refusals >= old(world.refusals) && old(world.proofs) <= world.proofs
      ensures installs == old(installs) && source == old(source) && lastProjection == old(lastProjection)
      ensures old(world.log) <= world.log
      ensures world.disk.committed == old(world.disk).committed
      ensures old(confirmation).None? ==>
          && !ok && snapshot == old(snapshot) && management == old(management)
          && confirmation.None? && terminal == old(terminal)
          && world.log == old(world.log) && world.trace == old(world.trace) && unchanged(authority)
      ensures old(confirmation).Some? ==> TerminatedBy(action, ok)
      ensures old(confirmation).Some? && world.refusals == old(world.refusals) ==> (ok <==> old(Revertible()))
      ensures ok ==> old(Revertible())
      ensures world.refusals == old(world.refusals) && ok ==> snapshot.available
    {
      hide Observe, CrashSafe, Undoable, TargetLive, Undone, AllCrashSafe, Accepted, AuthoredFrom;
      ok := false;
      if confirmation.Some? {
        StartTermination();
        var undone := UndoPreview();
        if undone {
          ok := AbortPreview(action);
        }
      }
    }

    /** An earlier attempt has undone the preview, or its bridge back to the committed side is
        still there. */
    ghost predicate Revertible()
      reads this, world, backend
    {
      confirmation.Some?
      && (confirmation.value.liveRolledBack || backend.Undoing(world.disk, confirmation.value.receipt))
    }

    twostate predicate KeptOrTerminated()
      reads this
    {
      confirmation == old(confirmation) || confirmation.None? || confirmation.value.terminationStarted
    }

    /** How a capability that is being terminated may stand afterwards. */
    twostate predicate TerminatedBy(action: TerminalAction, ok: bool)
      requires old(confirmation).Some?
      reads this, world, backend
    {
      if ok then
        && confirmation.None? && confirmationState == Idle && QuietAndSettled()
        && world.running == world.disk.committed
        && terminal.Some? && terminal.value.serial == old(confirmation).value.serial
        && terminal.value.token == old(confirmation).value.token
        && terminal.value.owner == old(confirmation).value.owner
        && terminal.value.action == action
      else
        && confirmation.Some? && confirmation.value.terminationStarted && !snapshot.available
        && confirmation.value.token == old(confirmation).value.token
        && confirmation.value.serial == old(confirmation).value.serial
        && terminal == old(terminal)
    }

    method StartTermination()
      requires Base() && confirmation.Some? && Previewed(confirmation.value)
      modifies this`confirmation, this`confirmationState, world`log
      ensures Base() && world.disk == old(world.disk)
      ensures confirmation == Some(old(confirmation).value.(terminationStarted := true))
      ensures confirmationState == RevertingDisplay && Revertible() == old(Revertible())
      ensures Previewed(confirmation.value)
      ensures world.log == old(world.log) + [TerminationStarted(confirmation.value.serial)]
    {
      hide Observe;
      ghost var log0 := world.log;
      confirmation := Some(confirmation.value.(terminationStarted := true));
      confirmationState := RevertingDisplay;
      world.Record(TerminationStarted(confirmation.value.serial));
      ObserveAppend(log0, TerminationStarted(confirmation.value.serial));
    }

    /** Roll the live target back, unless an earlier attempt already did. */
    method UndoPreview() returns (ok: bool)
      requires Base() && confirmation.Some? && Previewed(confirmation.value)
      requires confirmation.value.terminationStarted && confirmationState != Idle
      modifies this, world
      ensures Base() && confirmation.Some? && Previewed(confirmation.value)
      ensures world.refusals >= old(world.refusals) && old(world.proofs) <= world.proofs
      ensures installs == old(installs) && source == old(source) && lastProjection == old(lastProjection)
      ensures old(world.log) <= world.log
      ensures terminal == old(terminal) && confirmationState != Idle
      ensures world.disk.committed == old(world.disk).committed && world.disk.journal == old(world.disk).journal
      ensures confirmation.value.liveRolledBack == ok
      ensures ok ==> old(Revertible())
      ensures old(confirmation).value.liveRolledBack ==> world.log == old(world.log) && world.trace == old(world.trace)
      ensures ok && !old(confirmation).value.liveRolledBack ==>
          RolledBack(old(world.proofs), world.proofs, old(world.disk).bridge.value, confirmation.value.receipt)
      ensures confirmation == Some(old(confirmation).value.(liveRolledBack := confirmation.value.liveRolledBack,
                                       rolledBackStatus := confirmation.value.rolledBackStatus))
      ensures !ok ==> !snapshot.available
      ensures world.refusals == old(world.refusals) && old(Revertible()) ==> ok
    {
      hide Observe;
      ok := true;
      if !confirmation.value.liveRolledBack {
        ghost var log1 := world.log;
        var rolledBack := backend.Rollback(confirmation.value.receipt);
        ObserveAppend(log1, RollbackCalled(rolledBack.success));
        if rolledBack.success {
          confirmation := Some(confirmation.value.(liveRolledBack := true,
                                                   rolledBackStatus := Some(rolledBack.status)));
        } else {
          AcceptUnreconciled(snapshot, rolledBack.status);
          ok := false;
        }
      }
    }

    /** Abort the journal of a rolled-back preview and end its capability. */
    method AbortPreview(action: TerminalAction) returns (ok: bool)
      requires Base() && confirmation.Some? && confirmation.value.liveRolledBack && Previewed(confirmation.value)
      requires action != Confirmed && terminal.None? && confirmationState != Idle
      modifies this, world`disk, world`trace, world`log, world`refusals, authority`staged
      ensures Valid()
      ensures world.refusals >= old(world.refusals)
      ensures installs == old(installs) && source == old(source) && lastProjection == old(lastProjection)
      ensures old(world.log) <= world.log
      ensures world.disk.committed == old(world.disk).committed
      ensures TerminatedBy(action, ok)
      ensures world.refusals == old(world.refusals) ==> ok && snapshot.available
    {
      hide Observe;
      var pending := confirmation.value;
      var restored := if pending.rolledBackStatus.Some? then pending.rolledBackStatus.value else management;
      var aborted := Abort(pending.generation);
      if !aborted.success {
        AcceptUnreconciled(aborted.snapshot, restored);
        return false;
      }
      EndCapability(action, aborted.snapshot, restored);
      ok := true;
    }

    method EndCapability(action: TerminalAction, s: Snapshot, restored: ManagementStatus)
      requires Base() && Bound() && Settled(world.disk) && confirmation.Some? && action != Confirmed
      requires Now().phase == Ending(confirmation.value.serial)
      requires authority.Reports(s)
      modifies this, world`log
      ensures Base() && QuietAndSettled()
      ensures installs == old(installs) && source == old(source) && lastProjection == old(lastProjection)
      ensures old(world.log) <= world.log
      ensures confirmation.None? && confirmationState == Idle && snapshot == s
      ensures terminal.Some? && terminal.value.serial == old(confirmation).value.serial
          && terminal.value.token == old(confirmation).value.token
          && terminal.value.owner == old(confirmation).value.owner
          && terminal.value.action == action
    {
      hide Observe;
      ghost var log0 := world.log;
      var pending := confirmation.value;
      confirmation, confirmationState := None, Idle;
      terminal := Some(DisplayTerminal(pending.serial, pending.token, pending.owner, action, s.revision, s.generation));
      world.Record(CapabilityEnded(pending.serial, action));
      ObserveAppend(log0, CapabilityEnded(pending.serial, action));
      AcceptState(s, restored);
    }

    method HandleDisplayConfirmationTimeout()
      requires Valid()
      modifies this, world, authority`staged
      ensures Valid()
      ensures old(FailedClosed()) ==> Inert()
      ensures world.disk.committed == old(world.disk).committed
      ensures old(confirmation).Some? ==> TerminatedBy(Expired, confirmation.None?)
      ensures world.refusals == old(world.refusals) && old(Revertible()) ==> confirmation.None?
      ensures old(confirmation).None? ==> confirmation.None? && world.log == old(world.log)
    {
      hide Observe;
      if confirmation.Some? {
        var ok := RevertDisplayConfirmation(Expired);
      }
    }

    method HandleDisplayOwnerLoss(owner: string)
      requires Valid()
      modifies this, world, authority`staged
      ensures Valid()
      ensures old(FailedClosed()) ==> Inert()
      ensures world.disk.committed == old(world.disk).committed
      ensures old(confirmation).Some? && old(confirmation).value.owner == owner ==>
          TerminatedBy(Reverted, confirmation.None?)
      ensures (world.refusals == old(world.refusals) && old(Revertible()) && old(confirmation).value.owner == owner) ==>
          confirmation.None?
      ensures old(confirmation).None? || old(confirmation).value.owner != owner ==>
          confirmation == old(confirmation) && world.log == old(world.log)
    {
      hide Observe;
      if confirmation.Some? && confirmation.value.owner == owner {
        var ok := RevertDisplayConfirmation(Reverted);
      }
    }

    /** The management poll and the file watcher. */
    method RefreshManagementStatus()
      requires Valid()
      modifies this, world, authority`staged
      ensures Valid() && KeptOrTerminated()
      ensures world.refusals >= old(world.refusals) && old(world.proofs) <= world.proofs
      ensures old(confirmation).Some? && !TerminatedBy(Reverted, confirmation.None?) ==>
          && confirmation == old(confirmation) && world.disk == old(world.disk)
          && management.state == (if snapshot.available then Previewing else Conflict)
          && management.generation == (if snapshot.available then confirmation.value.generation else "")
          && world.proofs == old(world.proofs) + [Bridged(world.disk.bridge), Exact(confirmation.value.receipt, true)]
      ensures (world.refusals == old(world.refusals) && old(confirmation).Some?
          && !old(confirmation).value.terminationStarted) ==> confirmation == old(confirmation)
      ensures (world.refusals == old(world.refusals) && old(confirmation).None? && snapshot.available) ==>
          management.state == if snapshot.generation == "" then Unmanaged else Managed
      ensures old(FailedClosed()) ==> Inert()
      ensures world.disk.committed == old(world.disk).committed
      ensures installs == old(installs) && source == old(source) && lastProjection == old(lastProjection)
      ensures old(confirmation).None? ==> confirmation.None? && world.log == old(world.log)
    {
      hide Observe, CrashSafe, Undoable, Undone, AllCrashSafe, Accepted, AuthoredFrom;
      if confirmation.Some? {
        var c := confirmation.value;
        var target := backend.VerifyPendingTarget(c.receipt, c.generation);
        if !target.success {
          var _ := RevertDisplayConfirmation(Reverted);
          return;
        }
        var live := AuthorityBound(snapshot, target.status, c.generation);
        if live != management {
          AcceptState(snapshot, target.status);
        }
        return;
      }
      var status := backend.Status();
      var live := AuthorityBound(snapshot, status, "");
      if live != management {
        AcceptState(snapshot, live);
      }
    }

    /** What may run while the service waits: the deadline timer, an owner-loss signal, a poll. */
    method Interrupted()
      requires Valid()
      modifies this, world, authority`staged
      ensures Valid() && KeptOrTerminated()
      ensures world.refusals > old(world.refusals) && old(world.proofs) <= world.proofs
      ensures world.disk.committed == old(world.disk).committed
      ensures installs == old(installs) && source == old(source) && lastProjection == old(lastProjection)
    {
      hide Observe, CrashSafe, Undoable, TargetLive, Undone, AllCrashSafe, Accepted, AuthoredFrom;
      var expired, polled: bool := *, *;
      if polled {
        RefreshManagementStatus();
      } else {
        var _ := RevertDisplayConfirmation(if expired then Expired else Reverted);
      }
      world.Refuse();
    }

    /** Any number of timers, owner-loss signals and polls may run before a blocking query is
        answered. */
    method Wait()
      requires Valid()
      modifies this, world, authority`staged
      ensures Valid() && KeptOrTerminated()
      ensures world.refusals >= old(world.refusals) && old(world.proofs) <= world.proofs
      ensures world.disk.committed == old(world.disk).committed
      ensures installs == old(installs) && source == old(source) && lastProjection == old(lastProjection)
      ensures world.refusals == old(world.refusals) ==>
          && confirmation == old(confirmation) && snapshot == old(snapshot) && world.disk == old(world.disk)
          && world.proofs == old(world.proofs)
    {
      hide Observe;
      var events: nat :| 0 <= events;
      for event := 0 to events
        invariant Valid() && KeptOrTerminated()
        invariant old(world.proofs) <= world.proofs
        invariant world.refusals >= old(world.refusals) && (event > 0 ==> world.refusals > old(world.refusals))
        invariant world.disk.committed == old(world.disk).committed
        invariant installs == old(installs) && source == old(source) && lastProjection == old(lastProjection)
        invariant event == 0 ==>
            && confirmation == old(confirmation) && snapshot == old(snapshot) && world.disk == old(world.disk)
            && world.proofs == old(world.proofs)
      {
        Interrupted();
      }
    }

    method DisplayOwnerStillPresent(owner: string) returns (present: bool)
      requires Valid()
      modifies this, world, authority`staged
      ensures Valid() && KeptOrTerminated()
      ensures world.refusals >= old(world.refusals) && old(world.proofs) <= world.proofs
      ensures world.disk.committed == old(world.disk).committed
      ensures installs == old(installs) && source == old(source) && lastProjection == old(lastProjection)
      ensures !present && owner != "" ==> world.refusals > old(world.refusals)
      ensures present ==> owner != "" && Proved(old(world.proofs), world.proofs, [Present(owner)])
      ensures world.refusals == old(world.refusals) ==>
          && confirmation == old(confirmation) && snapshot == old(snapshot) && world.disk == old(world.disk)
    {
      hide Observe;
      Wait();
      present := owner != "";
      if present {
        present := *;
        if present {
          ProvedLast(old(world.proofs), world.proofs, Present(owner));
          world.Prove(Present(owner));
        } else {
          world.Refuse();
        }
      }
    }

    predicate CapabilityStands(token: string)
      reads this
    {
      confirmation.Some? && confirmation.value.token == token && !confirmation.value.terminationStarted
    }

    /** The base of a preview: the writable, exactly applied state with the caller's token. */
    ghost predicate Previewable(expectedRevision: nat)
      reads this`snapshot
    {
      && snapshot.available && snapshot.writable && expectedRevision == snapshot.revision == snapshot.appliedRevision
      && snapshot.applyState == Current && snapshot.required.None? && snapshot.generation != ""
    }

    /** The refusals that precede any call with an effect. */
    method CheckPreview(expectedRevision: nat, digestsMatch: bool, profileParses: bool)
      returns (t: Option<Topology>)
      requires Valid() && confirmation.None?
      modifies this`snapshot, this`management, this`pendingRevision, this`pendingBorder, this`pendingSpacing,
        world`refusals, world`proofs
      ensures Valid() && snapshot == old(snapshot)
      ensures world.refusals >= old(world.refusals) && old(world.proofs) <= world.proofs
      ensures t.Some? ==>
          && Previewable(expectedRevision) && digestsMatch && profileParses && management.state == Managed
          && t.value.acceptsProfile && t.value.runtimeIdentity != ""
          && world.proofs == old(world.proofs) + [Displays(t.value)]
      ensures !old(snapshot).available ==> world.refusals == old(world.refusals)
      ensures (world.refusals == old(world.refusals) && Previewable(expectedRevision) && digestsMatch && profileParses
          && (forall u :: world.proofs == old(world.proofs) + [Displays(u)] ==>
                u.runtimeIdentity != "" && u.acceptsProfile)) ==> t.Some?
    {
      hide Observe;
      t := None;
      if !snapshot.available || !snapshot.writable || !digestsMatch || expectedRevision != snapshot.revision {
        return;
      }
      var live := backend.Status();
      if live != management {
        AcceptState(snapshot, live);
      }
      var exactBaseline := management.state == Managed && snapshot.applyState == Current
        && snapshot.revision == snapshot.appliedRevision && snapshot.generation != "" && snapshot.required.None?;
      if !exactBaseline || !profileParses {
        return;
      }
      t := backend.ConnectedDisplays();
      if t.Some? && (t.value.runtimeIdentity == "" || !t.value.acceptsProfile) {
        assert world.proofs == old(world.proofs) + [Displays(t.value)];
        t := None;
      }
    }

    /** Prepare revision N+1 beside the desired state and check what came back. */
    method StageDisplay(expectedRevision: nat) returns (staged: bool, prepared: AuthorityResult)
      requires Valid() && confirmation.None? && snapshot.available
      modifies this, world, authority`staged
      ensures Base() && confirmation.None? && installs == old(installs) && terminal == old(terminal)
      ensures source == old(source) && lastProjection == old(lastProjection)
      ensures confirmationState in {old(confirmationState), DisplayFailed}
      ensures world.refusals >= old(world.refusals) && old(world.proofs) <= world.proofs
      ensures world.disk.committed == old(world.disk).committed
      ensures staged ==>
          && prepared.prepared.Some? && prepared.prepared.value.requirement == Reload
          && prepared.prepared.value.complete && prepared.prepared.value.revision == expectedRevision + 1
          && world.proofs == old(world.proofs) + [Given(prepared.prepared.value), Satisfies(Reload)]
          && Bound() && Now().phase == Staged && ReadyToPublish(world.disk, prepared.prepared.value.id)
          && authority.Reports(prepared.snapshot) && snapshot == old(snapshot) == authority.Published()
      ensures !staged ==> Valid()
      ensures world.refusals == old(world.refusals) ==> staged && prepared.prepared.value.qualified
    {
      hide Observe;
      var document: Document := *;
      prepared := Prepare(expectedRevision, Some(document));
      staged := false;
      var live := backend.Status();
      if !prepared.success || prepared.prepared.None? {
        AcceptUnstaged(prepared, live);
        return;
      }
      staged := KeepDisplayable(prepared.prepared.value, prepared.snapshot.revision);
    }

    /** A generation of another shape, or one the runtime cannot take, is aborted. */
    method KeepDisplayable(g: PreparedGeneration, revision: nat) returns (staged: bool)
      requires Base() && Bound() && Now().phase == Staged && ReadyToPublish(world.disk, g.id)
      requires confirmation.None?
      modifies this`snapshot, this`management, this`confirmationState,
        this`pendingRevision, this`pendingBorder, this`pendingSpacing,
        world`disk, world`trace, world`log, world`refusals, world`proofs, authority`staged
      ensures Base()
      ensures confirmationState in {old(confirmationState), DisplayFailed}
      ensures world.refusals >= old(world.refusals) && old(world.proofs) <= world.proofs
      ensures world.disk.committed == old(world.disk).committed
      ensures staged ==>
          && g.complete && g.requirement == Reload && g.revision == revision + 1
          && Bound() && Now().phase == Staged && ReadyToPublish(world.disk, g.id)
          && snapshot == old(snapshot) && authority.staged == old(authority.staged)
          && world.proofs == old(world.proofs) + [Satisfies(Reload)]
      ensures !staged ==> Valid()
      ensures (world.refusals == old(world.refusals) && g.complete && g.requirement == Reload
          && g.revision == revision + 1) ==> staged
    {
      hide Observe;
      staged := Displayable(g, revision);
      if !staged {
        AbandonStaged(g.id);
      }
    }

    method Displayable(g: PreparedGeneration, revision: nat) returns (ok: bool)
      requires Base()
      modifies world`refusals, world`proofs
      ensures Base()
      ensures world.refusals >= old(world.refusals)
      ensures world.proofs == old(world.proofs) + if ok then [Satisfies(Reload)] else []
      ensures ok ==> g.complete && g.requirement == Reload && g.revision == revision + 1
      ensures (world.refusals == old(world.refusals) && Bound() && g.complete && g.requirement == Reload
          && g.revision == revision + 1) ==> ok
    {
      hide Observe;
      ok := g.complete && g.revision == revision + 1 && g.requirement == Reload;
      if ok {
        ok := backend.CanSatisfy(g.requirement);
      }
    }

    method AcceptUnstaged(prepared: AuthorityResult, live: ManagementStatus)
      requires Base() && Handed(prepared) && confirmation.None?
      requires !prepared.success || prepared.prepared.None?
      requires !prepared.success && snapshot.available && prepared.snapshot == snapshot ==> QuietAndSettled()
      modifies this`snapshot, this`management, this`confirmationState,
        this`pendingRevision, this`pendingBorder, this`pendingSpacing
      ensures Valid() && confirmationState in {old(confirmationState), DisplayFailed}
    {
      hide Observe;
      if prepared.success || !prepared.snapshot.available || prepared.snapshot.applyState == Failed {
        AcceptUnreconciled(prepared.snapshot, live);
      } else if prepared.snapshot != snapshot {
        AcceptState(prepared.snapshot, live);
      }
    }

    method AbandonStaged(g: Generation)
      requires Base() && Bound() && Now().phase == Staged && ReadyToPublish(world.disk, g)
      requires confirmation.None?
      modifies this`snapshot, this`management, this`confirmationState,
        this`pendingRevision, this`pendingBorder, this`pendingSpacing,
        world`disk, world`trace, world`log, world`refusals, authority`staged
      ensures Valid()
      ensures world.refusals >= old(world.refusals)
      ensures confirmationState in {old(confirmationState), DisplayFailed}
      ensures world.disk.committed == old(world.disk).committed
    {
      hide Observe;
      var aborted := Abort(g);
      var live := backend.Status();
      if aborted.success {
        AcceptState(aborted.snapshot, live);
      } else {
        AcceptUnreconciled(aborted.snapshot, live);
      }
    }

    /** Put the prepared generation live and prove it, or undo it. */
    method ActivatePreview(prepared: PreparedGeneration, baseline: Topology)
      returns (live: bool, activated: ActivationResult)
      requires Base() && Bound() && Now().phase == Staged && ReadyToPublish(world.disk, prepared.id)
      requires confirmation.None? && snapshot == authority.Published()
      modifies this, world, authority`staged
      ensures Base() && confirmation.None? && installs == old(installs) && terminal == old(terminal)
      ensures source == old(source) && lastProjection == old(lastProjection)
      ensures confirmationState in {old(confirmationState), DisplayFailed}
      ensures world.refusals >= old(world.refusals) && old(world.proofs) <= world.proofs
      ensures world.disk.committed == old(world.disk).committed
      ensures live ==>
          && activated.receipt != 0 && Undecided(prepared.id, true)
          && TargetLive(world.disk, activated.receipt, prepared.id) && snapshot == old(snapshot)
      ensures live ==>
          && world.running == prepared.id && prepared.qualified && prepared.requirement == Reload
          && ProvedLive(old(world.proofs), world.proofs, baseline, prepared.id, activated.receipt, world.disk.committed)
      ensures !live ==> Valid()
      ensures (world.refusals == old(world.refusals) && prepared.requirement == Reload && prepared.qualified
          && world.disk.committed != "" && Steady(old(world.proofs), world.proofs, baseline)) ==> live
    {
      hide Observe;
      live, activated := ActivateExact(prepared, baseline);
      if !live {
        UndoActivated(activated, prepared.id);
      }
    }

    /** The activation, its runtime and the displays afterwards. */
    method ActivateExact(prepared: PreparedGeneration, baseline: Topology)
      returns (live: bool, activated: ActivationResult)
      requires Base() && Bound() && Now().phase == Staged && ReadyToPublish(world.disk, prepared.id)
      modifies world
      ensures Base() && Undecided(prepared.id, activated.mayHaveOccurred)
      ensures world.refusals >= old(world.refusals) && old(world.proofs) <= world.proofs
      ensures world.disk.committed == old(world.disk).committed
      ensures live ==>
          && activated.mayHaveOccurred && activated.receipt != 0 && world.running == prepared.id
          && TargetLive(world.disk, activated.receipt, prepared.id)
          && prepared.qualified && prepared.requirement == Reload
          && ProvedLive(old(world.proofs), world.proofs, baseline, prepared.id, activated.receipt, world.disk.committed)
      ensures (world.refusals == old(world.refusals) && prepared.requirement == Reload && prepared.qualified
          && world.disk.committed != "" && Steady(old(world.proofs), world.proofs, baseline)) ==> live
    {
      hide Observe, Steady;
      activated := Activate(prepared, false);
      ghost var proofs0, proofs1 := old(world.proofs), world.proofs;
      live := activated.success && activated.mayHaveOccurred && activated.generation == prepared.id
        && activated.confirmedRequirement == Reload && activated.runtimeIdentity == baseline.runtimeIdentity;
      if live {
        live := DisplayTopologyStillExact(activated.receipt, prepared.id, baseline);
        ComposeLive(proofs0, proofs1, world.proofs, baseline, prepared.id, activated.receipt, world.disk, live);
      }
      if activated.success && Steady(proofs0, world.proofs, baseline) {
        SteadyOpens(proofs0, proofs1, world.proofs, activated.runtimeIdentity, prepared.id, activated.receipt,
                    baseline);
        SteadyParts(proofs0, proofs1, world.proofs, baseline);
      }
    }

    method UndoActivated(activated: ActivationResult, g: Generation)
      requires Base() && Undecided(g, activated.mayHaveOccurred)
      requires confirmation.None? && snapshot == authority.Published()
      modifies this`snapshot, this`management, this`confirmationState,
        this`pendingRevision, this`pendingBorder, this`pendingSpacing, world, authority`staged
      ensures Valid()
      ensures confirmationState in {old(confirmationState), DisplayFailed}
      ensures world.refusals >= old(world.refusals) && old(world.proofs) <= world.proofs
      ensures world.disk.committed == old(world.disk).committed
    {
      hide Observe;
      var ok, snap, status := UndoAndAbort(activated.mayHaveOccurred, activated.mayHaveOccurred,
                                           activated.receipt, g, snapshot, activated.status);
      if ok {
        AcceptState(snap, status);
      } else {
        AcceptUnreconciled(snap, status);
      }
    }

    /** A token differing from the last terminated capability's is drawn only now. */
    method InstallCapability(owner: string, prepared: PreparedGeneration, receipt: nat, baseline: Topology)
      requires Base() && confirmation.None? && Undecided(prepared.id, true) && prepared.id != "" && receipt != 0
      requires TargetLive(world.disk, receipt, prepared.id) && snapshot == authority.Published()
      requires world.running == prepared.id
      modifies this`confirmation, this`terminal, this`confirmationState, this`installs, world`log
      ensures Valid() && world.disk == old(world.disk) && world.running == old(world.running)
      ensures installs == old(installs) + 1 && confirmation.Some? && terminal.None?
      ensures CapabilityStands(confirmation.value.token)
      ensures old(terminal).Some? ==> confirmation.value.token != old(terminal).value.token
      ensures confirmation.value.owner == owner && confirmation.value.serial == old(installs)
      ensures confirmation.value.generation == prepared.id && confirmation.value.receipt == receipt
      ensures confirmation.value.baseline == baseline && confirmationState == AwaitingConfirmation
      ensures confirmation.value.previewRevision == prepared.revision
    {
      hide Observe;
      ghost var log0 := world.log;
      assert terminal.None? || ['x'] + terminal.value.token != terminal.value.token by {
        assert terminal.None? || |['x'] + terminal.value.token| != |terminal.value.token|;
      }
      var token: string :| terminal.None? || token != terminal.value.token;
      confirmation := Some(DisplayConfirmation(installs, token, owner, prepared.id, prepared.revision,
                                               receipt, baseline, false, false, None));
      world.Record(CapabilityInstalled(installs));
      ObserveAppend(log0, CapabilityInstalled(installs));
      terminal, confirmationState, installs := None, AwaitingConfirmation, installs + 1;
    }

    /** The owner query and the deadline check after it; a capability that no longer holds
        is terminated, unless whatever ran during the query already did so. */
    method StillHeld(owner: string) returns (held: bool)
      requires Valid() && confirmation.Some? && CapabilityStands(confirmation.value.token)
      modifies this, world, authority`staged
      ensures Valid()
      ensures world.refusals >= old(world.refusals) && old(world.proofs) <= world.proofs
      ensures installs == old(installs) && source == old(source) && lastProjection == old(lastProjection)
      ensures world.disk.committed == old(world.disk).committed
      ensures held ==> confirmation == old(confirmation)
      ensures held ==> Proved(old(world.proofs), world.proofs, [Present(owner), InTime])
      ensures !held ==> confirmation.None? || confirmation.value.terminationStarted
      ensures world.refusals == old(world.refusals) && owner != "" ==>
          held && snapshot == old(snapshot) && world.disk == old(world.disk)
    {
      hide Observe, Proved;
      var token := confirmation.value.token;
      var present;
      held, present := OwnerInTime(owner);
      if !held && CapabilityStands(token) {
        var _ := RevertDisplayConfirmation(if present then Expired else Reverted);
      }
    }

    /** The query, then the deadline of a capability that still stands. */
    method OwnerInTime(owner: string) returns (held: bool, present: bool)
      requires Valid() && confirmation.Some? && CapabilityStands(confirmation.value.token)
      modifies this, world, authority`staged
      ensures Valid() && KeptOrTerminated()
      ensures world.refusals >= old(world.refusals) && old(world.proofs) <= world.proofs
      ensures installs == old(installs) && source == old(source) && lastProjection == old(lastProjection)
      ensures world.disk.committed == old(world.disk).committed
      ensures held ==>
          && present && confirmation == old(confirmation)
          && Proved(old(world.proofs), world.proofs, [Present(owner), InTime])
      ensures world.refusals == old(world.refusals) && owner != "" ==>
          held && snapshot == old(snapshot) && world.disk == old(world.disk)
    {
      hide Observe, Proved;
      var token := confirmation.value.token;
      present := DisplayOwnerStillPresent(owner);
      held := present && CapabilityStands(token);
      if held {
        ghost var proofs1 := world.proofs;
        var remaining := DeadlineRemaining();
        held := remaining > 0;
        if held {
          ComposePresent(old(world.proofs), proofs1, world.proofs, owner);
        }
      }
    }

    /** Deadline, owner, deadline again: only then is the token handed out. */
    method ProveOwner(owner: string, prepared: Snapshot, status: ManagementStatus) returns (ok: bool)
      requires Valid() && confirmation.Some? && CapabilityStands(confirmation.value.token)
      requires authority.Reports(prepared)
      modifies this, world, authority`staged
      ensures Valid()
      ensures world.refusals >= old(world.refusals) && old(world.proofs) <= world.proofs
      ensures installs == old(installs) && source == old(source) && lastProjection == old(lastProjection)
      ensures world.disk.committed == old(world.disk).committed
      ensures ok ==> confirmation == old(confirmation) && snapshot == prepared
      ensures ok ==> Proved(old(world.proofs), world.proofs, OwnerProofs(owner))
      ensures !ok ==> confirmation.None? || confirmation.value.terminationStarted
      ensures world.refusals == old(world.refusals) && owner != "" ==> ok
    {
      hide Observe, Proved, CrashSafe, Undoable, TargetLive, Undone, AllCrashSafe, Accepted, AuthoredFrom;
      var remaining := DeadlineRemaining();
      if remaining <= 0 {
        var _ := RevertDisplayConfirmation(Expired);
        return false;
      }
      ghost var proofs1 := world.proofs;
      ok := StillHeld(owner);
      if ok {
        ComposeOwner(old(world.proofs), proofs1, world.proofs, owner);
        AcceptState(prepared, status);
      }
    }

    method PreviewDisplayConfiguration(expectedRevision: nat, timeoutSeconds: nat, owner: string,
                                       digestsMatch: bool, profileParses: bool)
      returns (token: Option<string>)
      requires Valid()
      modifies this, world, authority`staged
      ensures Valid()
      ensures old(FailedClosed()) ==> Inert()
      ensures world.disk.committed == old(world.disk).committed
      ensures token.Some? ==>
          && 10 <= timeoutSeconds <= 30 && owner != "" && digestsMatch && profileParses
          && old(confirmation).None? && old(snapshot).available && old(snapshot).writable
          && expectedRevision == old(snapshot).revision == old(snapshot).appliedRevision
          && old(snapshot).generation != ""
          && installs == old(installs) + 1 && CapabilityStands(token.value) && confirmation.value.owner == owner
          && (old(terminal).Some? ==> token.value != old(terminal).value.token)
          && confirmation.value.previewRevision == expectedRevision + 1
          && exists p :: PreviewProved(old(world.proofs), world.proofs, p, confirmation.value, world.disk.committed)
      ensures token.None? && old(confirmation).None? ==> confirmation.None? || confirmation.value.terminationStarted
      ensures old(confirmation).Some? ==> confirmation == old(confirmation) && world.log == old(world.log)
      ensures (world.refusals == old(world.refusals) && old(confirmation).None? && old(Previewable(expectedRevision))
          && 10 <= timeoutSeconds <= 30 && owner != "" && digestsMatch && profileParses
          && Favourable(old(world.proofs), world.proofs)) ==> token.Some?
    {
      hide Observe, Proved, PreviewProved, ProvedOwned, Steady, Favourable, CrashSafe, Undoable, AllCrashSafe, Accepted,
        AuthoredFrom, TargetLive, Undone;
      token := None;
      if confirmation.Some? || timeoutSeconds < 10 || timeoutSeconds > 30 || owner == "" {
        return;
      }
      var baseline := CheckPreview(expectedRevision, digestsMatch, profileParses);
      ghost var proofs1 := world.proofs;
      if baseline.None? {
        if Favourable(old(world.proofs), world.proofs) {
          FavourableFirst(old(world.proofs), world.proofs);
        }
        return;
      }
      var staged, prepared := StageDisplay(expectedRevision);
      ghost var proofs2 := world.proofs;
      if !staged {
        return;
      }
      token := FinishPreview(owner, prepared, baseline.value);
      if token.Some? {
        ComposePreview(old(world.proofs), proofs2, world.proofs, prepared.prepared.value, confirmation.value,
                       world.disk.committed);
      }
      if Favourable(old(world.proofs), world.proofs) {
        FavourableRest(old(world.proofs), proofs1, proofs2, world.proofs, baseline.value);
      }
    }

    method FinishPreview(owner: string, prepared: AuthorityResult, baseline: Topology) returns (token: Option<string>)
      requires Base() && Bound() && Now().phase == Staged && prepared.prepared.Some?
      requires ReadyToPublish(world.disk, prepared.prepared.value.id) && authority.Reports(prepared.snapshot)
      requires confirmation.None? && snapshot == authority.Published()
      modifies this, world, authority`staged
      ensures Valid()
      ensures world.refusals >= old(world.refusals) && old(world.proofs) <= world.proofs
      ensures world.disk.committed == old(world.disk).committed
      ensures (world.refusals == old(world.refusals) && prepared.prepared.value.requirement == Reload
          && prepared.prepared.value.qualified && world.disk.committed != "" && owner != ""
          && Steady(old(world.proofs), world.proofs, baseline)) ==> token.Some?
      ensures token.Some? ==>
          && installs == old(installs) + 1 && CapabilityStands(token.value) && confirmation.value.owner == owner
          && confirmation.value.generation == prepared.prepared.value.id
          && confirmation.value.previewRevision == prepared.prepared.value.revision
          && confirmation.value.baseline == baseline && snapshot == prepared.snapshot
          && prepared.prepared.value.qualified && prepared.prepared.value.requirement == Reload
          && ProvedOwned(old(world.proofs), world.proofs, baseline, confirmation.value.generation,
                         confirmation.value.receipt, world.disk.committed, owner)
          && (old(terminal).Some? ==> token.value != old(terminal).value.token)
      ensures token.None? ==> confirmation.None? || confirmation.value.terminationStarted
    {
      hide Observe;
      token := None;
      var live, activated := ActivatePreview(prepared.prepared.value, baseline);
      if !live {
        return;
      }
      ghost var proofs1 := world.proofs;
      InstallCapability(owner, prepared.prepared.value, activated.receipt, baseline);
      var installed := confirmation.value.token;
      var ok := ProveOwner(owner, prepared.snapshot, activated.status);
      if ok {
        ComposeOwned(old(world.proofs), proofs1, world.proofs, baseline, prepared.prepared.value.id, activated.receipt,
                     world.disk.committed, owner);
        token := Some(installed);
      }
    }

    /** The deadline, the displays, the deadline again: nothing else runs in between. */
    method ProveDisplayed(c: DisplayConfirmation) returns (exact: bool, expired: bool)
      requires Base()
      modifies world`refusals, world`proofs
      ensures Base()
      ensures world.refusals >= old(world.refusals) && old(world.proofs) <= world.proofs
      ensures exact && !expired ==> ProvedDisplayed(old(world.proofs), world.proofs, c, world.disk.bridge)
      ensures (Bound() && TargetLive(world.disk, c.receipt, c.generation) && c.generation != "" && c.receipt != 0
          && world.refusals == old(world.refusals)
          && Steady(old(world.proofs), world.proofs, c.baseline)) ==> exact && !expired
    {
      hide Observe;
      var remaining := DeadlineRemaining();
      exact, expired := false, remaining <= 0;
      if !expired {
        ghost var proofs1 := world.proofs;
        exact := DisplayTopologyStillExact(c.receipt, c.generation, c.baseline);
        ghost var proofs2 := world.proofs;
        remaining := DeadlineRemaining();
        expired := remaining <= 0;
        if exact && !expired {
          ghost var t :|
            SameDisplays(t, c.baseline) && proofs2 == proofs1 + ExactProofs(t, c.receipt, world.disk.bridge);
        }
        if Steady(old(world.proofs), world.proofs, c.baseline) {
          SteadyParts(old(world.proofs), proofs1, world.proofs, c.baseline);
          SteadyParts(proofs1, proofs2, world.proofs, c.baseline);
        }
      }
    }

    /** Every check that stands between a Confirm call and the one-way decision. */
    method ProveConfirmable() returns (ok: bool)
      requires Valid() && confirmation.Some? && CapabilityStands(confirmation.value.token)
      modifies this, world, authority`staged
      ensures Valid()
      ensures world.refusals >= old(world.refusals) && old(world.proofs) <= world.proofs
      ensures installs == old(installs) && source == old(source) && lastProjection == old(lastProjection)
      ensures world.disk.committed == old(world.disk).committed
      ensures ok ==>
          && confirmation == old(confirmation)
          && ProvedConfirmable(old(world.proofs), world.proofs, confirmation.value, old(world.disk).bridge)
      ensures !ok ==> confirmation.None? || confirmation.value.terminationStarted
      ensures (world.refusals == old(world.refusals) && old(confirmation).value.owner != ""
          && Steady(old(world.proofs), world.proofs, old(confirmation).value.baseline)) ==>
          ok && snapshot == old(snapshot)
    {
      hide Observe, Proved, Steady;
      var c := confirmation.value;
      var exact, expired := ProveDisplayed(c);
      ghost var proofs1 := world.proofs;
      if !exact || expired {
        var _ := RevertDisplayConfirmation(if expired then Expired else Reverted);
        ok := false;
      } else {
        ok := StillHeld(c.owner);
        if ok {
          ComposeConfirmable(old(world.proofs), proofs1, world.proofs, c, old(world.disk).bridge);
        }
      }
      if Steady(old(world.proofs), world.proofs, c.baseline) {
        SteadyParts(old(world.proofs), proofs1, world.proofs, c.baseline);
      }
    }

    /** The caller owns the capability and names its token. */
    ghost predicate CallableBy(owner: string, token: string)
      reads this`confirmation
    {
      confirmation.Some? && owner != "" && confirmation.value.owner == owner && confirmation.value.token == token
    }

    /** The last capability was the caller's and ended in this way: its call is being retried. */
    ghost predicate Ended(owner: string, token: string, action: TerminalAction)
      reads this`terminal
    {
      && terminal.Some? && terminal.value.token == token && terminal.value.owner == owner
      && terminal.value.action == action
    }

    method ConfirmDisplayConfiguration(owner: string, token: string) returns (generation: Option<Generation>)
      requires Valid()
      modifies this, world, backend, authority
      ensures Valid()
      ensures old(FailedClosed()) ==> Inert()
      ensures generation.Some? ==>
          && terminal.Some? && terminal.value.token == token && terminal.value.owner == owner
          && terminal.value.action == Confirmed && terminal.value.generation == generation.value
      ensures old(confirmation).Some? && generation.Some? ==>
          && world.disk.committed == generation.value == old(confirmation).value.generation && QuietAndSettled()
          && world.running == generation.value
          && terminal.value.serial == old(confirmation).value.serial
          && ConfirmProved(old(world.proofs), world.proofs, old(confirmation).value, old(world.disk).bridge)
      ensures old(confirmation).Some? && generation.None? && old(CallableBy(owner, token)) ==>
          confirmation.None? || confirmation.value.terminationStarted
      ensures old(confirmation).None? ==>
          && generation == (if old(Ended(owner, token, Confirmed)) then Some(old(terminal).value.generation) else None)
          && confirmation.None? && terminal == old(terminal)
          && world.log == old(world.log) && world.trace == old(world.trace)
      ensures old(confirmation).Some? && !old(CallableBy(owner, token)) ==>
          generation.None? && confirmation == old(confirmation) && world.log == old(world.log)
          && world.trace == old(world.trace)
      ensures old(confirmation).Some? && old(confirmation).value.terminationStarted ==>
          generation.None? && confirmation == old(confirmation) && world.log == old(world.log)
      ensures (world.refusals == old(world.refusals) && old(confirmation).Some? && old(CallableBy(owner, token))
          && !old(confirmation).value.terminationStarted
          && Steady(old(world.proofs), world.proofs, old(confirmation).value.baseline)) ==>
          generation == Some(old(confirmation).value.generation)
    {
      hide Observe, Proved, Steady;
      generation := None;
      if terminal.Some? && terminal.value.token == token && terminal.value.owner == owner
         && terminal.value.action == Confirmed {
        return Some(terminal.value.generation);
      }
      if confirmation.None? || owner == "" || confirmation.value.owner != owner || confirmation.value.token != token
         || confirmation.value.terminationStarted {
        return;
      }
      ghost var c, pending := confirmation.value, world.disk.bridge;
      var provable := ProveConfirmable();
      ghost var proofs1 := world.proofs;
      if provable {
        generation := CommitDisplay();
        if generation.Some? {
          ComposeConfirmed(old(world.proofs), proofs1, world.proofs, c, pending);
        }
      }
      if Steady(old(world.proofs), world.proofs, c.baseline) {
        SteadyParts(old(world.proofs), proofs1, world.proofs, c.baseline);
      }
    }

    /** The one-way half of Confirm: every rollback path is revoked before finalization. */
    method CommitDisplay() returns (generation: Option<Generation>)
      requires Valid() && confirmation.Some? && CapabilityStands(confirmation.value.token)
      modifies this, world, backend, authority
      ensures Valid()
      ensures world.refusals >= old(world.refusals) && old(world.proofs) <= world.proofs
      ensures installs == old(installs) && source == old(source) && lastProjection == old(lastProjection)
      ensures generation.Some? ==>
          && generation.value == old(confirmation).value.generation
          && ConfirmedFrom(old(confirmation).value)
          && world.proofs == old(world.proofs) + [Bridged(old(world.disk).bridge)]
      ensures generation.None? ==> confirmation.None? || confirmation.value.terminationStarted
      ensures old(world.log) < world.log && world.log[|old(world.log)|].CommitCalled?
      ensures world.log[|old(world.log)|] == CommitCalled(false, false) ==> TerminatedBy(Reverted, confirmation.None?)
      ensures world.refusals == old(world.refusals) ==> generation.Some?
    {
      hide Observe, Undoable, Undone, AllCrashSafe, Accepted, AuthoredFrom;
      var c := confirmation.value;
      assert TargetLive(world.disk, c.receipt, c.generation);
      var committed := Commit(c.generation);
      if !committed.success && !committed.commitDecisionMayExist && !committed.commitDecisionDurable {
        var _ := RevertDisplayConfirmation(Reverted);
        return None;
      }
      confirmation, confirmationState := None, CommittingDisplay;
      if !committed.success {
        AcceptUnreconciled(committed.snapshot, management);
        return None;
      }
      var ok := FinalizeDisplay(c, committed.snapshot);
      generation := if ok then Some(c.generation) else None;
    }

    ghost predicate ConfirmedFrom(c: DisplayConfirmation)
      reads this, world, backend
    {
      && world.disk.committed == world.running == c.generation && QuietAndSettled() && confirmation.None?
      && terminal.Some? && terminal.value.token == c.token && terminal.value.owner == c.owner
      && terminal.value.action == Confirmed && terminal.value.serial == c.serial
      && terminal.value.generation == c.generation
    }

    method FinalizeDisplay(c: DisplayConfirmation, s: Snapshot) returns (ok: bool)
      requires Base() && confirmation.None? && Now().phase == Decided(Some(c.serial)) && authority.Reports(s)
      requires CrashSafe(world.disk) && world.disk.journal == NoJournal && world.disk.committed == c.generation
      requires world.disk.bridge == Some(Bridge(c.receipt, c.generation, world.disk.ownership))
      requires world.disk.entrypoint == world.running == c.generation
      requires backend.filesystemBound && backend.versionPolicyConfigured && !backend.finalizationFailed
      modifies this, world, backend
      ensures Valid() && confirmation.None?
      ensures world.refusals >= old(world.refusals) && old(world.proofs) <= world.proofs
      ensures installs == old(installs) && source == old(source) && lastProjection == old(lastProjection)
      ensures old(world.log) <= world.log
      ensures ok ==> ConfirmedFrom(c) && world.proofs == old(world.proofs) + [Bridged(old(world.disk).bridge)]
      ensures world.refusals == old(world.refusals) ==> ok
    {
      hide Observe;
      var finalized := Finalize(c.receipt, c.generation);
      ok := finalized.success && finalized.status.state == Managed && finalized.status.generation == c.generation;
      if ok {
        EndConfirmed(c, s, finalized.status);
      } else {
        AcceptUnreconciled(s, finalized.status);
      }
    }

    method EndConfirmed(c: DisplayConfirmation, s: Snapshot, status: ManagementStatus)
      requires Base() && Bound() && Settled(world.disk) && confirmation.None?
      requires Now().phase == Confirming(c.serial) && authority.Reports(s)
      modifies this, world`log
      ensures Base() && QuietAndSettled() && confirmation.None? && snapshot == s
      ensures installs == old(installs) && source == old(source) && lastProjection == old(lastProjection)
      ensures old(world.log) <= world.log
      ensures confirmationState == Idle
      ensures terminal == Some(DisplayTerminal(c.serial, c.token, c.owner, Confirmed, s.revision, c.generation))
    {
      hide Observe;
      ghost var log0 := world.log;
      confirmationState := Idle;
      terminal := Some(DisplayTerminal(c.serial, c.token, c.owner, Confirmed, s.revision, c.generation));
      world.Record(CapabilityEnded(c.serial, Confirmed));
      ObserveAppend(log0, CapabilityEnded(c.serial, Confirmed));
      AcceptState(s, status);
    }

    method RevertDisplayConfiguration(owner: string, token: string) returns (ok: bool)
      requires Valid()
      modifies this, world, authority`staged
      ensures Valid()
      ensures old(FailedClosed()) ==> Inert()
      ensures world.disk.committed == old(world.disk).committed
      ensures ok ==>
          && terminal.Some? && terminal.value.token == token && terminal.value.owner == owner
          && terminal.value.action == Reverted
      ensures old(confirmation).Some? && ok ==>
          && confirmation.None? && QuietAndSettled() && world.running == world.disk.committed
          && terminal.value.serial == old(confirmation).value.serial
      ensures old(CallableBy(owner, token)) ==> TerminatedBy(Reverted, ok)
      ensures old(confirmation).None? ==>
          && ok == old(Ended(owner, token, Reverted)) && confirmation.None? && terminal == old(terminal)
          && world.log == old(world.log) && world.trace == old(world.trace)
      ensures old(confirmation).Some? && !old(CallableBy(owner, token)) ==>
          !ok && confirmation == old(confirmation) && world.log == old(world.log) && world.trace == old(world.trace)
      ensures world.refusals == old(world.refusals) && old(CallableBy(owner, token)) ==> (ok <==> old(Revertible()))
    {
      hide Observe;
      if terminal.Some? && terminal.value.token == token && terminal.value.owner == owner
         && terminal.value.action == Reverted {
        return true;
      }
      if confirmation.None? || owner == "" || confirmation.value.owner != owner || confirmation.value.token != token {
        return false;
      }
      ok := RevertDisplayConfirmation(Reverted);
    }

    // ---- Replace, Apply, Recover, Adopt ----

    function Policy(): Option<Projection>
      reads this`source, this`lastProjection
    {
      if source.Some? then source else lastProjection
    }

    /** What a candidate leaves alone: the geometry under a policy, or with no policy at all
        both geometries of the state before it, and always the protected rule. */
    ghost predicate Respects(policy: Option<Projection>, before: Document, candidate: Document) {
      && editors.protectedRuleExact(candidate)
      && match policy
         case Some(p) =>
           && (p.syncBorders ==> editors.borderOf(candidate) == Some(p.border))
           && (p.syncSpacing ==> editors.spacingOf(candidate) == Some(p.spacing))
         case None =>
           && editors.borderOf(before).Some? && editors.borderOf(candidate) == editors.borderOf(before)
           && editors.spacingOf(before).Some? && editors.spacingOf(candidate) == editors.spacingOf(before)
    }

    /** A candidate may not move geometry that the shared visual settings control; with no
        policy at all, everything they could control must stay as it is. */
    predicate ReplacementAllowed(candidate: Document)
      reads this
    {
      var policy := Policy();
      var border := if policy.Some? then Some(policy.value.border) else editors.borderOf(snapshot.desired);
      var spacing := if policy.Some? then Some(policy.value.spacing) else editors.spacingOf(snapshot.desired);
      && (policy.None? || policy.value.syncBorders ==> border.Some? && editors.borderOf(candidate) == border)
      && (policy.None? || policy.value.syncSpacing ==> spacing.Some? && editors.spacingOf(candidate) == spacing)
      && editors.protectedRuleExact(candidate)
    }

    predicate ActivationAllowed(candidate: Document)
      reads this
    {
      source.Some? && ReplacementAllowed(candidate)
    }

    /** A caller who may change the configuration now, with the current revision in hand. */
    ghost predicate Permitted(expectedRevision: nat)
      reads this`confirmation, this`snapshot
    {
      && confirmation.None? && snapshot.available && snapshot.writable
      && expectedRevision == snapshot.revision
    }

    /** The shared visual settings are known, and the desired state is as they want it. */
    ghost predicate Controlled()
      reads this`source, this`snapshot
    {
      source.Some? && Respects(source, snapshot.desired, snapshot.desired)
    }

    /** The caller's proof of the entrypoint found: its digest, or none where there is no file. */
    ghost predicate AsExpected(seen: ManagementStatus, digest: string) {
      if digest == "" then seen.kind == Absent else seen.kind == Regular && seen.digest == digest
    }

    method FinishReplace(r: AuthorityResult)
      requires Base() && authority.Reports(r.snapshot) && (r.snapshot.available || r.snapshot.applyState == Failed)
      requires r.snapshot.available && confirmation.None? ==> QuietAndSettled()
      requires confirmation.Some? ==>
          Previewed(confirmation.value) && terminal.None? && confirmationState != Idle
          && !confirmation.value.terminationStarted
      modifies this`snapshot, this`management, this`pendingRevision, this`pendingBorder, this`pendingSpacing,
        world`refusals
      ensures world.refusals >= old(world.refusals)
      ensures Valid() && snapshot == r.snapshot
      ensures (pendingBorder ==> old(pendingBorder)) && (pendingSpacing ==> old(pendingSpacing))
      ensures pendingRevision ==
          if old(pendingRevision) == Some(r.snapshot.revision) then old(pendingRevision) else None
    {
      hide Observe;
      var status := backend.Status();
      if r.success || r.snapshot.available || r.snapshot.applyState == Failed {
        AcceptState(r.snapshot, status);
      }
    }

    /** The token just before the current one is always delegated: the authority alone tells
        an exact retry of a lost response from a stale candidate, and neither changes it. */
    method ReplaceSnapshot(expectedRevision: nat, digestsMatch: bool, candidate: Document) returns (ok: bool)
      requires Valid()
      modifies this, world`refusals, authority`revision, authority`desired, authority`requirement
      ensures Valid() && confirmation == old(confirmation)
      ensures old(FailedClosed()) ==> Inert()
      ensures ok ==>
          && old(snapshot).available && digestsMatch && snapshot.available && snapshot.desired == candidate
          && (snapshot.revision == expectedRevision + 1 == old(snapshot).revision ==> snapshot == old(snapshot))
          && snapshot.revision == expectedRevision + 1
      ensures ok && snapshot.revision != old(snapshot).revision ==>
          && old(confirmation).None? && old(snapshot).writable && expectedRevision == old(snapshot).revision
          && Respects(old(if source.Some? then source else lastProjection), old(snapshot).desired, candidate)
      ensures authority.revision != old(authority.revision) ==>
          && old(confirmation).None? && old(snapshot).available && old(snapshot).writable && digestsMatch
          && expectedRevision == old(snapshot).revision
          && Respects(old(if source.Some? then source else lastProjection), old(snapshot).desired, candidate)
      ensures (world.refusals == old(world.refusals) && old(snapshot).available && digestsMatch
          && expectedRevision + 1 == old(snapshot).revision && candidate == old(snapshot).desired) ==> ok
      ensures (world.refusals == old(world.refusals) && old(snapshot).available && digestsMatch
          && old(snapshot).writable && old(confirmation).None? && expectedRevision == old(snapshot).revision
          && Respects(old(if source.Some? then source else lastProjection), old(snapshot).desired, candidate)) ==> ok
      ensures authority.revision == old(authority.revision) ==> authority.desired == old(authority.desired)
    {
      hide Observe;
      ok := false;
      var precedes := snapshot.revision > 0 && expectedRevision + 1 == snapshot.revision;
      if !precedes && confirmation.Some? {
        return;
      }
      if !snapshot.available || !digestsMatch || (!precedes && !snapshot.writable) {
        return;
      }
      if !precedes && (expectedRevision != snapshot.revision || !ReplacementAllowed(candidate)) {
        return;
      }
      var r := authority.ReplaceSnapshot(expectedRevision, candidate);
      FinishReplace(r);
      ok := r.success;
    }

    /** Prepare, complete, and publish whatever the two parties now say. */
    method RunPrepared(expectedRevision: nat, staged: Option<Document>, adoption: bool, expected: Option<Requirement>)
      returns (ok: bool)
      requires Valid() && confirmation.None? && snapshot.available
      modifies this`snapshot, this`management, this`pendingRevision, this`pendingBorder, this`pendingSpacing,
        world, backend, authority
      ensures Valid()
      ensures ok ==> world.running == world.disk.committed
      ensures world.refusals >= old(world.refusals)
      ensures authority.requirement == old(authority.requirement)
      ensures (pendingBorder ==> old(pendingBorder)) && (pendingSpacing ==> old(pendingSpacing))
      ensures ok ==> QuietAndSettled()
      ensures ok && snapshot.available ==> ExactCurrent(snapshot, management)
      ensures ok ==>
          && expected in {None, Some(Reload)} && adoption == (old(world.disk).committed == "")
          && TransactionProved(old(world.proofs), world.proofs, world.disk.committed, old(world.disk).committed,
                               adoption)
          && authority.applied == authority.desired == (if staged.Some? then staged.value else old(authority.desired))
          && authority.revision == old(authority.revision) + if staged.Some? then 1 else 0
      ensures (world.refusals == old(world.refusals) && adoption == (old(world.disk).committed == "")
          && expected in {None, Some(Reload)} && (staged.Some? || old(authority.requirement) == Reload)) ==>
          ok && snapshot.available
      ensures world.refusals == old(world.refusals) ==> snapshot.available
      ensures !ok && snapshot.available ==> world.disk.committed == old(world.disk).committed
      ensures authority.applied
          in {old(authority.applied), if staged.Some? then staged.value else old(authority.desired)}
    {
      hide Observe;
      var prepared := Prepare(expectedRevision, staged);
      var completion := CompletePrepared(prepared, adoption, expected);
      ok := completion.success;
      if ok || completion.snapshot.available || completion.snapshot.applyState == Failed {
        AcceptState(completion.snapshot, completion.management);
      }
    }

    predicate MutationAllowed(expectedRevision: nat, digestsMatch: bool)
      reads this
    {
      snapshot.available && snapshot.writable && digestsMatch && expectedRevision == snapshot.revision
    }

    method ReadManagement()
      requires Valid() && confirmation.None?
      modifies this`management, this`snapshot, this`pendingRevision, this`pendingBorder, this`pendingSpacing,
        world`refusals
      ensures Valid() && snapshot == old(snapshot)
      ensures world.refusals >= old(world.refusals)
      ensures snapshot.available && management.state == Managed ==>
          management.generation == snapshot.generation != ""
      ensures snapshot.available && management.state == Unmanaged ==> snapshot.generation == ""
      ensures (pendingBorder ==> old(pendingBorder)) && (pendingSpacing ==> old(pendingSpacing))
      ensures management.state != Previewing
      ensures world.refusals == old(world.refusals) && snapshot.available ==>
          management.state == if snapshot.generation == "" then Unmanaged else Managed
      ensures old(pendingRevision) == Some(snapshot.revision) ==> pendingRevision == old(pendingRevision)
      ensures pendingRevision.Some? ==>
          pendingRevision == old(pendingRevision)
          && pendingBorder == old(pendingBorder) && pendingSpacing == old(pendingSpacing)
    {
      hide Observe;
      var live := backend.Status();
      if live != management {
        AcceptState(snapshot, live);
      }
    }

    /** The desired state's own generation, if the runtime can do what it requires. */
    method ActivateDesired(expectedRevision: nat, adoption: bool) returns (ok: bool)
      requires Valid() && confirmation.None? && snapshot.available && snapshot.required.Some?
      modifies this`snapshot, this`management, this`pendingRevision, this`pendingBorder, this`pendingSpacing,
        world, backend, authority
      ensures Valid()
      ensures world.refusals >= old(world.refusals)
      ensures authority.applied in {old(authority.applied), old(authority.desired)}
      ensures ok ==>
          && old(snapshot).required == Some(Reload) && adoption == (old(world.disk).committed == "")
          && QuietAndSettled() && world.running == world.disk.committed
          && authority.applied == authority.desired == old(authority.desired)
          && TransactionProved(old(world.proofs) + [Satisfies(Reload)], world.proofs, world.disk.committed,
                               old(world.disk).committed, adoption)
      ensures ok && snapshot.available ==> ExactCurrent(snapshot, management)
      ensures !ok && snapshot.available ==> world.disk.committed == old(world.disk).committed
      ensures (world.refusals == old(world.refusals) && adoption == (old(world.disk).committed == "")
          && old(snapshot).required == Some(Reload)) ==> ok && snapshot.available
    {
      hide Observe, TransactionProved;
      ok := false;
      var satisfied := backend.CanSatisfy(snapshot.required.value);
      if satisfied {
        ok := RunPrepared(expectedRevision, None, adoption, snapshot.required);
      }
    }

    method Apply(expectedRevision: nat, digestsMatch: bool) returns (ok: bool)
      requires Valid()
      modifies this, world, backend, authority
      ensures Valid() && confirmation == old(confirmation)
      ensures ok && world.log != old(world.log) ==> world.running == world.disk.committed
      ensures old(FailedClosed()) ==> Inert()
      ensures ok && snapshot.available ==> ExactCurrent(snapshot, management) && Settled(world.disk)
      ensures authority.applied in {old(authority.applied), old(authority.desired)}
      ensures ok || world.log != old(world.log) ==>
          old(Permitted(expectedRevision)) && digestsMatch && old(Controlled()) && old(snapshot).generation != ""
      ensures ok ==> old(snapshot).required in {None, Some(Reload)}
      ensures ok && old(snapshot).required.None? ==> snapshot == old(snapshot) && world.log == old(world.log)
      ensures ok && old(snapshot).required.Some? ==>
          && authority.applied == authority.desired == old(authority.desired)
          && TransactionProved(old(world.proofs) + [Satisfies(Reload)], world.proofs, world.disk.committed,
                               old(world.disk).committed, false)
      ensures (world.refusals == old(world.refusals) && old(Permitted(expectedRevision)) && digestsMatch
          && old(Controlled()) && old(snapshot).generation != "" && old(snapshot).required in {None, Some(Reload)}) ==>
          ok && snapshot.available
      ensures world.refusals >= old(world.refusals)
      ensures !ok && snapshot.available ==> world.disk.committed == old(world.disk).committed
    {
      hide Observe;
      ok := false;
      if confirmation.Some? || !MutationAllowed(expectedRevision, digestsMatch)
         || !ActivationAllowed(snapshot.desired) {
        return;
      }
      ReadManagement();
      if management.state != Managed {
        return;
      }
      if snapshot.required.None? || snapshot.required.value == NoActivation {
        if snapshot.applyState == Current && snapshot.generation != "" {
          ok := authority.CurrentActivationSafe();
        }
        return;
      }
      ok := ActivateDesired(expectedRevision, false);
    }

    method RecoverDefaults(expectedRevision: nat, digestsMatch: bool, safeDefaults: Document) returns (ok: bool)
      requires Valid()
      modifies this, world, backend, authority
      ensures Valid() && confirmation == old(confirmation)
      ensures ok ==> world.running == world.disk.committed
      ensures old(FailedClosed()) ==> Inert()
      ensures ok && snapshot.available ==> ExactCurrent(snapshot, management) && Settled(world.disk)
      ensures authority.applied in {old(authority.applied), safeDefaults}
      ensures ok || world.log != old(world.log) ==>
          old(Permitted(expectedRevision)) && digestsMatch && old(snapshot).generation != ""
      ensures ok ==>
          && authority.applied == authority.desired == safeDefaults
          && authority.revision == old(authority.revision) + 1
          && TransactionProved(old(world.proofs), world.proofs, world.disk.committed, old(world.disk).committed, false)
      ensures (world.refusals == old(world.refusals) && old(Permitted(expectedRevision)) && digestsMatch
          && old(snapshot).generation != "") ==> ok && snapshot.available
      ensures !ok && snapshot.available ==> world.disk.committed == old(world.disk).committed
    {
      hide Observe;
      ok := false;
      if confirmation.Some? || !MutationAllowed(expectedRevision, digestsMatch) {
        return;
      }
      ReadManagement();
      if management.state == Managed {
        ok := RunPrepared(expectedRevision, Some(safeDefaults), false, None);
      }
    }

    method AdoptManagedConfiguration(expectedRevision: nat, digestsMatch: bool, expectedDigest: string)
      returns (ok: bool, ghost seen: ManagementStatus)
      requires Valid()
      modifies this, world, backend, authority
      ensures Valid() && confirmation == old(confirmation)
      ensures ok ==> world.running == world.disk.committed
      ensures old(FailedClosed()) ==> Inert()
      ensures ok && snapshot.available ==> ExactCurrent(snapshot, management) && Settled(world.disk)
      ensures authority.applied in {old(authority.applied), old(authority.desired)}
      ensures ok || world.log != old(world.log) ==>
          && old(Permitted(expectedRevision)) && digestsMatch && old(Controlled()) && old(snapshot).generation == ""
          && seen.state == Unmanaged && AsExpected(seen, expectedDigest)
      ensures ok ==>
          && old(snapshot).required == Some(Reload)
          && authority.applied == authority.desired == old(authority.desired)
          && TransactionProved(old(world.proofs) + [Satisfies(Reload)], world.proofs, world.disk.committed,
                               old(world.disk).committed, true)
      ensures (world.refusals == old(world.refusals) && old(Permitted(expectedRevision)) && digestsMatch
          && old(Controlled()) && old(snapshot).generation == "" && old(snapshot).required == Some(Reload)
          && AsExpected(seen, expectedDigest)) ==> ok && snapshot.available
      ensures !ok && snapshot.available ==> world.disk.committed == old(world.disk).committed
    {
      hide Observe;
      ok, seen := false, management;
      if confirmation.Some? || !MutationAllowed(expectedRevision, digestsMatch)
         || !ActivationAllowed(snapshot.desired) {
        return;
      }
      ReadManagement();
      seen := management;
      var expectationMatches :=
        if expectedDigest == "" then management.kind == Absent
        else management.kind == Regular && management.digest == expectedDigest;
      if management.state != Unmanaged || !expectationMatches
         || snapshot.required.None? || snapshot.required.value == NoActivation {
        return;
      }
      ok := ActivateDesired(expectedRevision, true);
    }

    // ---- Shared visual settings ----

    /** Ownership of a group ends when its part of the projection changes. */
    method StillOwned(next: Option<Projection>) returns (border: bool, spacing: bool)
      ensures border <==> (pendingBorder && (next.None? || (lastProjection.Some?
          && next.value.syncBorders == lastProjection.value.syncBorders
          && next.value.border == lastProjection.value.border)))
      ensures spacing <==> (pendingSpacing && (next.None? || (lastProjection.Some?
          && next.value.syncSpacing == lastProjection.value.syncSpacing
          && next.value.spacing == lastProjection.value.spacing)))
    {
      border, spacing := pendingBorder, pendingSpacing;
      if next.Some? {
        var p := next.value;
        if !SameBorder(lastProjection, p) {
          border := false;
        }
        if !SameSpacing(lastProjection, p) {
          spacing := false;
        }
      }
    }

    method SharedVisualSourceChanged(next: Option<Projection>)
      requires Valid()
      modifies this`source, this`lastProjection, this`pendingRevision, this`pendingBorder, this`pendingSpacing
      ensures Valid() && source == next
      ensures old(FailedClosed()) ==> Inert()
      ensures pendingBorder <==> (old(pendingBorder) && (next.None? || (old(lastProjection).Some?
          && next.value.syncBorders == old(lastProjection).value.syncBorders
          && next.value.border == old(lastProjection).value.border)))
      ensures pendingSpacing <==> (old(pendingSpacing) && (next.None? || (old(lastProjection).Some?
          && next.value.syncSpacing == old(lastProjection).value.syncSpacing
          && next.value.spacing == old(lastProjection).value.spacing)))
      ensures pendingRevision == if next.None? || pendingBorder || pendingSpacing then old(pendingRevision) else None
      ensures lastProjection == if next.Some? then next else old(lastProjection)
    {
      hide Wired, Now, AuthoredFrom, QuietAndSettled, Previewed;
      var border, spacing := StillOwned(next);
      TakeSource(next, border, spacing);
    }

    method TakeSource(next: Option<Projection>, border: bool, spacing: bool)
      modifies this`source, this`lastProjection, this`pendingRevision, this`pendingBorder, this`pendingSpacing
      ensures source == next && pendingBorder == border && pendingSpacing == spacing
      ensures lastProjection == if next.Some? then next else old(lastProjection)
      ensures pendingRevision == if next.None? || border || spacing then old(pendingRevision) else None
    {
      source, pendingBorder, pendingSpacing := next, border, spacing;
      if next.Some? {
        lastProjection, pendingRevision := next, if border || spacing then pendingRevision else None;
      }
    }

    ghost predicate BorderKnown(p: Projection)
      reads this`snapshot
    {
      p.syncBorders ==> editors.borderOf(snapshot.desired).Some?
    }

    ghost predicate SpacingKnown(p: Projection)
      reads this`snapshot
    {
      p.syncSpacing ==> editors.spacingOf(snapshot.desired).Some?
    }

    /** The desired state has another border than the policy wants. */
    ghost predicate BorderNeeded(p: Projection)
      reads this`snapshot
    {
      p.syncBorders && BorderKnown(p) && editors.borderOf(snapshot.desired) != Some(p.border)
    }

    /** It has another spacing, or the protected rule is not exactly in its place. */
    ghost predicate SpacingNeeded(p: Projection)
      reads this`snapshot
    {
      || !editors.protectedRuleExact(snapshot.desired)
      || (p.syncSpacing && SpacingKnown(p) && editors.spacingOf(snapshot.desired) != Some(p.spacing))
    }

    /** The desired state with every edit that the policy needs. */
    ghost function OwnDocument(p: Projection): Option<Document>
      reads this`snapshot
    {
      OwnEdits(editors, snapshot.desired, p, BorderNeeded(p), SpacingNeeded(p))
    }

    /** There is something to edit, it can be edited, and the result is as the policy wants it. */
    ghost predicate Editable(p: Projection)
      reads this`snapshot
    {
      && (BorderNeeded(p) || SpacingNeeded(p)) && BorderKnown(p) && SpacingKnown(p)
      && OwnDocument(p).Some? && Respects(Some(p), snapshot.desired, OwnDocument(p).value)
    }

    /** What the reconciler would change in the desired state, and which group it gives up on.
        `borderBlocked` and `spacingBlocked` are the memory of a failed attempt that is not to
        be repeated. */
    method OwnCandidate(p: Projection, borderBlocked: bool, spacingBlocked: bool)
      returns (candidate: Document, border: bool, spacing: bool, borderFailed: bool, spacingFailed: bool)
      ensures OwnEdits(editors, snapshot.desired, p, border, spacing) == Some(candidate)
      ensures border <==> BorderNeeded(p) && !borderBlocked && editors.editBorder(snapshot.desired, p).Some?
      ensures spacing <==> (SpacingNeeded(p) && !spacingBlocked && SpacingKnown(p)
          && editors.editSpacing(if border then editors.editBorder(snapshot.desired, p).value
                                 else snapshot.desired, p).Some?)
      ensures borderFailed <==>
          || !BorderKnown(p) || (BorderNeeded(p) && !border)
          || (borderBlocked && p.syncBorders && pendingRevision == Some(snapshot.revision) && pendingBorder)
      ensures spacingFailed <==>
          || !SpacingKnown(p) || (SpacingNeeded(p) && !spacing)
          || (spacingBlocked && pendingRevision == Some(snapshot.revision) && pendingSpacing)
    {
      candidate, border, spacing := snapshot.desired, false, false;
      var resolvedBorder := editors.borderOf(candidate);
      var resolvedSpacing := editors.spacingOf(candidate);
      var borderNeeded := p.syncBorders && resolvedBorder.Some? && resolvedBorder.value != p.border;
      var spacingNeeded := !editors.protectedRuleExact(candidate)
        || (p.syncSpacing && resolvedSpacing.Some? && resolvedSpacing.value != p.spacing);
      borderFailed := (p.syncBorders && resolvedBorder.None?)
        || (borderBlocked && (borderNeeded || (p.syncBorders && OwnsBorder())));
      spacingFailed := (p.syncSpacing && resolvedSpacing.None?)
        || (spacingBlocked && (spacingNeeded || OwnsSpacing()));
      if borderNeeded && !borderFailed {
        var edited := editors.editBorder(candidate, p);
        if edited.Some? {
          candidate, border := edited.value, true;
        } else {
          borderFailed := true;
        }
      }
      if spacingNeeded && !spacingFailed {
        var edited := editors.editSpacing(candidate, p);
        if edited.Some? {
          candidate, spacing := edited.value, true;
        } else {
          spacingFailed := true;
        }
      }
    }

    predicate OwnsBorder()
      reads this
    {
      pendingRevision == Some(snapshot.revision) && pendingBorder
    }

    predicate OwnsSpacing()
      reads this
    {
      pendingRevision == Some(snapshot.revision) && pendingSpacing
    }

    /** Save the reconciler's own edits as a new revision. It is marked for activation only
        when the base it was edited from was exactly the applied, live one. */
    method SaveOwnCandidate(p: Projection, candidate: Document, border: bool, spacing: bool, exactBase: bool)
      returns (saved: bool)
      requires Valid() && confirmation.None? && snapshot.available
      requires OwnEdits(editors, snapshot.desired, p, border, spacing) == Some(candidate) && (border || spacing)
      requires exactBase ==> snapshot.appliedRevision == snapshot.revision
      modifies this`snapshot, this`management, this`pendingRevision, this`pendingBorder, this`pendingSpacing,
        world`refusals, authority`revision, authority`desired, authority`requirement
      ensures Valid()
      ensures world.refusals >= old(world.refusals)
      ensures world.refusals == old(world.refusals) ==> saved
      ensures !saved ==> (pendingBorder ==> old(pendingBorder)) && (pendingSpacing ==> old(pendingSpacing))
      ensures saved ==>
          && snapshot.available && snapshot.desired == authority.desired == candidate
          && snapshot.revision == authority.revision == old(snapshot).revision + 1
          && pendingRevision == (if exactBase then Some(snapshot.revision) else None)
          && pendingBorder == (exactBase && border) && pendingSpacing == (exactBase && spacing)
      ensures world.disk == old(world.disk) && authority.applied == old(authority.applied)
      ensures !exactBase ==> pendingRevision.None? || pendingRevision == old(pendingRevision)
      ensures authority.revision != old(authority.revision) ==>
          AuthoredFrom(editors, old(authority.desired), authority.desired)
      ensures authority.revision == old(authority.revision) ==> authority.desired == old(authority.desired)
    {
      hide Observe;
      var before := snapshot;
      var replaced := authority.ReplaceSnapshot(snapshot.revision, candidate);
      FinishReplace(replaced);
      saved := replaced.success;
      if saved {
        if exactBase {
          assert OwnEdits(editors, before.applied, p, border, spacing) == Some(authority.desired);
          pendingRevision, pendingBorder, pendingSpacing := Some(replaced.snapshot.revision), border, spacing;
        } else {
          pendingRevision, pendingBorder, pendingSpacing := None, false, false;
        }
      }
    }

    predicate BorderVerified(p: Projection, failed: bool)
      reads this
    {
      p.syncBorders ==> !failed && editors.borderOf(snapshot.desired) == Some(p.border)
    }

    /** A group that was given up on keeps only the protected rule as its condition. */
    predicate SpacingVerified(p: Projection, failed: bool)
      reads this
    {
      && editors.protectedRuleExact(snapshot.desired)
      && (p.syncSpacing && !failed ==> editors.spacingOf(snapshot.desired) == Some(p.spacing))
    }

    /** The background reconciler. Whatever it makes applied is the applied state before it
        with its own edits, so an unapplied draft of the user is never activated by it. The
        two flags are the memory of a failed attempt that is not to be repeated. */
    method ReconcileSharedVisual(borderBlocked: bool, spacingBlocked: bool)
      requires Valid()
      modifies this, world, backend, authority
      ensures Valid() && confirmation == old(confirmation)
      ensures old(FailedClosed()) ==> Inert()
      ensures source == old(source) && lastProjection == if source.Some? then source else old(lastProjection)
      ensures authority.applied == old(authority.applied)
          || AuthoredFrom(editors, old(authority.applied), authority.applied)
      ensures authority.applied != old(authority.applied) || world.log != old(world.log) ==>
          old(confirmation).None? && old(source).Some? && old(snapshot).available
      ensures authority.applied != old(authority.applied) ==> FollowsPolicy(old(source).value, authority.applied)
      ensures (world.refusals == old(world.refusals) && old(source).Some? && old(confirmationState) == Idle
          && old(Reconcilable()) && old(Editable(source.value)) && !borderBlocked && !spacingBlocked
          && authority.requirement == Reload) ==>
          authority.applied == authority.desired == old(OwnDocument(source.value)).value
    {
      hide Observe, Editable, OwnEdits, AuthoredFrom;
      if source.None? {
        return;
      }
      lastProjection := source;
      if !snapshot.available || confirmationState != Idle {
        return;
      }
      ReconcileTowards(source.value, borderBlocked, spacingBlocked);
    }

    /** The state is writable, exactly applied and managed. */
    ghost predicate Reconcilable()
      reads this`snapshot
    {
      && snapshot.available && snapshot.writable && snapshot.appliedRevision == snapshot.revision
      && snapshot.generation != ""
    }

    /** The border is the policy's if it controls it, and the protected rule is in its place. */
    ghost predicate FollowsPolicy(p: Projection, doc: Document) {
      (p.syncBorders ==> editors.borderOf(doc) == Some(p.border)) && editors.protectedRuleExact(doc)
    }

    /** A border saved before awaits its activation beside a spacing that cannot be saved. */
    ghost predicate BorderAwaits(p: Projection)
      reads this`snapshot, this`pendingRevision, this`pendingBorder
    {
      && snapshot.required == Some(Reload) && snapshot.generation != "" && !snapshot.writable
      && pendingRevision == Some(snapshot.revision) && pendingBorder
      && p.syncBorders && editors.borderOf(snapshot.desired) == Some(p.border)
      && editors.protectedRuleExact(snapshot.desired) && p.syncSpacing && editors.spacingOf(snapshot.desired).Some?
    }

    method ReconcileTowards(p: Projection, borderBlocked: bool, spacingBlocked: bool)
      requires Valid() && confirmation.None? && snapshot.available
      modifies this`snapshot, this`management, this`pendingRevision, this`pendingBorder, this`pendingSpacing,
        world, backend, authority
      ensures Valid()
      ensures authority.applied == old(authority.applied)
          || (AuthoredFrom(editors, old(authority.applied), authority.applied) && FollowsPolicy(p, authority.applied))
      ensures !p.syncBorders ==> !pendingBorder
      ensures (world.refusals == old(world.refusals) && old(BorderAwaits(p)) && !borderBlocked && !spacingBlocked) ==>
          authority.applied == authority.desired == old(authority.desired) && NothingPending()
      ensures (world.refusals == old(world.refusals) && old(Reconcilable()) && old(Editable(p))
          && !borderBlocked && !spacingBlocked && authority.requirement == Reload) ==>
          authority.applied == authority.desired == old(OwnDocument(p)).value
    {
      hide Observe, AuthoredFrom, TargetLive, Undone, CrashSafe, AllCrashSafe, Accepted, Undoable, Previewed;
      ReadManagement();
      var exactBase := ExactCurrent(snapshot, management);
      var candidate, border, spacing, borderFailed, spacingFailed := OwnCandidate(p, borderBlocked, spacingBlocked);
      if !p.syncBorders {
        pendingBorder := false;
      }
      if border || spacing {
        var saved := false;
        if snapshot.writable {
          saved := SaveOwnCandidate(p, candidate, border, spacing, exactBase);
        }
        borderFailed := borderFailed || (border && !saved);
        spacingFailed := spacingFailed || (spacing && !saved);
      }
      if snapshot.available {
        ActivateOwn(p, borderFailed, spacingFailed, borderBlocked, spacingBlocked);
      }
    }

    /** No revision is left that the service authored and has yet to activate. */
    ghost predicate NothingPending()
      reads this`pendingRevision, this`pendingBorder, this`pendingSpacing
    {
      pendingRevision.None? && !pendingBorder && !pendingSpacing
    }

    /** The only activation the reconciler starts: of a revision it authored itself. */
    method ActivateOwn(p: Projection, borderFailed: bool, spacingFailed: bool,
                       borderBlocked: bool, spacingBlocked: bool)
      requires Valid() && confirmation.None? && snapshot.available
      modifies this`snapshot, this`management, this`pendingRevision, this`pendingBorder, this`pendingSpacing,
        world, backend, authority
      ensures Valid()
      ensures world.refusals >= old(world.refusals)
      ensures authority.requirement == old(authority.requirement)
      ensures authority.applied == old(authority.applied)
          || (AuthoredFrom(editors, old(authority.applied), authority.applied)
              && authority.applied == old(authority.desired))
      ensures authority.applied != old(authority.applied) || world.log != old(world.log) ==>
          && AuthoredFrom(editors, old(authority.applied), old(authority.desired))
          && old(pendingRevision) == Some(old(snapshot).revision)
          && ((old(pendingBorder) && !borderBlocked) || (old(pendingSpacing) && !spacingBlocked))
          && (p.syncBorders ==> !borderFailed && editors.borderOf(old(authority.desired)) == Some(p.border))
          && editors.protectedRuleExact(old(authority.desired))
          && (p.syncSpacing && !spacingFailed ==> editors.spacingOf(old(authority.desired)) == Some(p.spacing))
      ensures (world.refusals == old(world.refusals) && old(snapshot).required == Some(Reload)
          && old(snapshot).generation != "" && old(pendingRevision) == Some(old(snapshot).revision)
          && (old(pendingBorder) || old(pendingSpacing))
          && !(old(pendingBorder) && borderBlocked) && !(old(pendingSpacing) && spacingBlocked)
          && (p.syncBorders ==> !borderFailed && editors.borderOf(old(authority.desired)) == Some(p.border))
          && editors.protectedRuleExact(old(authority.desired))
          && (p.syncSpacing && !spacingFailed ==> editors.spacingOf(old(authority.desired)) == Some(p.spacing))) ==>
          authority.applied == authority.desired == old(authority.desired) && NothingPending()
      ensures world.refusals == old(world.refusals) && old(Reconcilable()) ==> NothingPending()
      ensures (pendingBorder ==> old(pendingBorder)) && (pendingSpacing ==> old(pendingSpacing))
    {
      hide Observe, AuthoredFrom;
      var border, spacing := OwnsBorder(), OwnsSpacing();
      var verified := BorderVerified(p, borderFailed) && SpacingVerified(p, spacingFailed);
      ReadManagement();
      if ExactCurrent(snapshot, management) {
        pendingRevision, pendingBorder, pendingSpacing := None, false, false;
        return;
      }
      if (!border && !spacing) || !verified || management.state != Managed || snapshot.required != Some(Reload) {
        return;
      }
      ActivateUnless((border && borderBlocked) || (spacing && spacingBlocked));
    }

    method ActivateUnless(blocked: bool)
      requires Valid() && confirmation.None? && snapshot.available && snapshot.required == Some(Reload)
      modifies this`snapshot, this`management, this`pendingRevision, this`pendingBorder, this`pendingSpacing,
        world, backend, authority
      ensures Valid()
      ensures world.refusals >= old(world.refusals)
      ensures authority.requirement == old(authority.requirement)
      ensures authority.applied in {old(authority.applied), old(authority.desired)}
      ensures (pendingBorder ==> old(pendingBorder)) && (pendingSpacing ==> old(pendingSpacing))
      ensures blocked ==> authority.applied == old(authority.applied) && world.log == old(world.log)
      ensures (world.refusals == old(world.refusals) && !blocked && old(world.disk).committed != "") ==>
          authority.applied == authority.desired == old(authority.desired) && NothingPending()
    {
      hide Observe, TransactionProved;
      var satisfied := backend.CanSatisfy(Reload);
      if !satisfied || blocked {
        return;
      }
      var ok := RunPrepared(snapshot.revision, None, false, snapshot.required);
      if ok {
        pendingRevision, pendingBorder, pendingSpacing := None, false, false;
      }
    }

    // ---- Whole runs ----

    /** One D-Bus call with arbitrary arguments. */
    method ClientCall()
      requires Valid()
      modifies this, world, backend, authority
      ensures Valid()
      ensures old(FailedClosed()) ==> Inert()
    {
      hide *;
      var choice: nat, revision: nat, seconds: nat :| 0 <= choice && 0 <= revision && 0 <= seconds;
      var exact, parses: bool := *, *;
      var caller, text: string := *, *;
      if choice == 0 {
        var _ := ReplaceSnapshot(revision, exact, text);
      } else if choice == 1 {
        var _ := Apply(revision, exact);
      } else if choice == 2 {
        var _ := RecoverDefaults(revision, exact, text);
      } else if choice == 3 {
        var _, _ := AdoptManagedConfiguration(revision, exact, text);
      } else if choice == 4 {
        var _ := PreviewDisplayConfiguration(revision, seconds, caller, exact, parses);
      } else if choice == 5 {
        var _ := ConfirmDisplayConfiguration(caller, text);
      } else {
        var _ := RevertDisplayConfiguration(caller, text);
      }
    }

    /** One timer, signal, poll or reconciliation. */
    method BackgroundEvent()
      requires Valid()
      modifies this, world, backend, authority
      ensures Valid()
      ensures old(FailedClosed()) ==> Inert()
    {
      hide *;
      var choice: int := *;
      var owner: string := *;
      var borderBlocked, spacingBlocked: bool := *, *;
      var projection: Option<Projection> := *;
      if choice == 0 {
        HandleDisplayConfirmationTimeout();
      } else if choice == 1 {
        HandleDisplayOwnerLoss(owner);
      } else if choice == 2 {
        RefreshManagementStatus();
      } else if choice == 3 {
        SharedVisualSourceChanged(projection);
      } else {
        ReconcileSharedVisual(borderBlocked, spacingBlocked);
      }
    }

    /** Any number of calls and events in any order. */
    method Serve(steps: nat)
      requires Valid()
      modifies this, world, backend, authority
      ensures Valid()
      ensures old(FailedClosed()) ==> Inert()
    {
      hide Observe;
      for i := 0 to steps
        invariant Valid()
        invariant old(FailedClosed()) ==> Inert()
      {
        var call: bool := *;
        if call {
          ClientCall();
        } else {
          BackgroundEvent();
        }
      }
    }
  }

  /** A machine that restarts the service as often as it likes, each process dying right after
      any of its writes. Whatever disk is found at the end can be started from. */
  method Restarts(first: Disk, lives: nat, editors: Editors) returns (last: Disk)
    requires CrashSafe(first)
    ensures CrashSafe(last)
    ensures CrashSafe(Initialized(last)) && Startable(Initialized(last), Decision(last))
  {
    last := first;
    for i := 0 to lives
      invariant CrashSafe(last)
    {
      var service := new CompositorService(last, editors);
      var ok := service.InitializeAuthority();
      var steps: nat :| 0 <= steps;
      service.Serve(if ok then steps else 0);
      var death: nat :| 0 <= death;
      if death < |service.world.trace| {
        last := service.world.trace[death];
      }
    }
  }
}

/** The two parties the compositor service drives, as far as their headers promise them.
    Outcomes that depend on the machine (a failed fsync, a lost compositor, a changed file)
    are chosen arbitrarily; `refusals` counts them, so that a contract can also say what
    happens when nothing goes wrong. Every write to disk is recorded in `trace`: a process
    may die right after any of its elements. */
module DurableWorld {
  import opened Options
  import opened ActivationProtocol

  datatype ManagementState = Unmanaged | Managed | Previewing | Conflict
  datatype EntrypointKind = Absent | Regular | Unsafe

  datatype ManagementStatus = ManagementStatus(
    state: ManagementState,
    kind: EntrypointKind,
    digest: string,
    generation: Generation
  )

  datatype Requirement = NoActivation | Reload | Restart | Session
  datatype ApplyState = Current | Pending | Failed
  type Document = string

  datatype Snapshot = Snapshot(
    available: bool,
    writable: bool,
    revision: nat,
    appliedRevision: nat,
    applyState: ApplyState,
    required: Option<Requirement>,
    generation: Generation,
    desired: Document,
    applied: Document
  )

  /** `complete` is the outcome of the shape checks on digests, nonce, paths and manifest;
      `qualified` says that the manifest names the configured Hyprland version range. */
  datatype PreparedGeneration = PreparedGeneration(
    id: Generation,
    complete: bool,
    qualified: bool,
    requirement: Requirement,
    revision: nat
  )

  datatype AuthorityResult = AuthorityResult(
    success: bool,
    commitDecisionDurable: bool,
    commitDecisionMayExist: bool,
    snapshot: Snapshot,
    prepared: Option<PreparedGeneration>
  )

  /** What a runtime session is opened for. */
  datatype Mode = AdoptionFullReset | ManagedReload | ManagedRollback | LegacyRollback

  /** Something the machine was asked and answered. */
  datatype Proof =
    | Given(prepared: PreparedGeneration)
    | Satisfies(requirement: Requirement)
    | Opened(mode: Mode, identity: string)
    | Loaded(generation: Generation)
    | Exact(receipt: nat, target: bool)
    | Exchanged(receipt: nat)
    | Bridged(pending: Option<Bridge>)
    | Displays(topology: Topology)
    | InTime
    | Present(owner: string)

  /** The answers `wanted` are among `given`, in this order. */
  ghost predicate Within(wanted: seq<Proof>, given: seq<Proof>)
    decreases |given|
  {
    || wanted == []
    || (given != [] && (Within(wanted, given[1..]) || (wanted[0] == given[0] && Within(wanted[1..], given[1..]))))
  }

  /** Between two states of the record, the machine gave the answers `wanted` in this order. */
  ghost predicate Proved(before: seq<Proof>, after: seq<Proof>, wanted: seq<Proof>) {
    before <= after && Within(wanted, after[|before|..])
  }

  lemma {:induction false} WithinAll(given: seq<Proof>)
    ensures Within(given, given)
    decreases |given|
  {
    if given != [] {
      WithinAll(given[1..]);
    }
  }

  lemma {:induction false} WithinLater(wanted: seq<Proof>, earlier: seq<Proof>, given: seq<Proof>)
    requires Within(wanted, given)
    ensures Within(wanted, earlier + given)
    decreases |earlier|
  {
    if earlier == [] {
      assert earlier + given == given;
    } else {
      WithinLater(wanted, earlier[1..], given);
      assert (earlier + given)[1..] == earlier[1..] + given;
    }
  }

  lemma {:induction false} WithinThen(first: seq<Proof>, early: seq<Proof>, second: seq<Proof>, late: seq<Proof>)
    requires Within(first, early) && Within(second, late)
    ensures Within(first + second, early + late)
    decreases |early|
  {
    if first == [] {
      assert first + second == second;
      WithinLater(second, early, late);
    } else {
      assert (early + late)[1..] == early[1..] + late;
      if Within(first, early[1..]) {
        WithinThen(first, early[1..], second, late);
      } else {
        WithinThen(first[1..], early[1..], second, late);
        assert (first + second)[1..] == first[1..] + second;
      }
    }
  }

  lemma ProvedThen(before: seq<Proof>, middle: seq<Proof>, after: seq<Proof>, first: seq<Proof>, second: seq<Proof>)
    requires Proved(before, middle, first) && Proved(middle, after, second)
    ensures Proved(before, after, first + second)
  {
    WithinThen(first, middle[|before|..], second, after[|middle|..]);
    assert after[|before|..] == middle[|before|..] + after[|middle|..];
  }

  lemma ProvedBy(before: seq<Proof>, after: seq<Proof>, wanted: seq<Proof>)
    requires after == before + wanted
    ensures Proved(before, after, wanted)
  {
    WithinAll(wanted);
    assert after[|before|..] == wanted;
  }

  lemma ProvedLast(before: seq<Proof>, middle: seq<Proof>, p: Proof)
    requires before <= middle
    ensures Proved(before, middle + [p], [p])
  {
    WithinAll([p]);
    WithinLater([p], middle[|before|..], [p]);
    assert (middle + [p])[|before|..] == middle[|before|..] + [p];
  }

  class World {
    var disk: Disk
    /** What the compositor last confirmed to have loaded. */
    var running: Generation
    var nextToken: nat
    var refusals: nat
    var trace: seq<Disk>
    ghost var log: seq<Event>
    ghost var proofs: seq<Proof>

    ghost predicate Valid()
      reads this
    {
      && nextToken > 0
      && |trace| > 0
      && trace[|trace| - 1] == disk
    }

    constructor (d: Disk)
      ensures Valid() && disk == d && trace == [d] && log == [] && refusals == 0
    {
      disk, nextToken, refusals := d, 1, 0;
      trace, log, proofs := [d], [], [];
      running := *;
    }

    method Write(d: Disk)
      requires Valid()
      modifies this`disk, this`trace
      ensures Valid() && disk == d && trace == old(trace) + [d]
    {
      disk := d;
      trace := trace + [d];
    }

    method Refuse()
      modifies this`refusals
      ensures refusals == old(refusals) + 1
    {
      refusals := refusals + 1;
    }

    ghost method Prove(p: Proof)
      modifies this`proofs
      ensures proofs == old(proofs) + [p]
    {
      proofs := proofs + [p];
    }

    ghost method Record(e: Event)
      modifies this`log
      ensures log == old(log) + [e]
    {
      log := log + [e];
    }
  }

  // ---- The durable authority ----

  ghost function PrepareStates(d: Disk, g: Generation): set<Disk> {
    {d, d.(journal := Prepared(g))}
  }

  /** The one-way marker, then the committed tuple, then the journal's removal. */
  ghost function CommitStates(d: Disk, g: Generation): set<Disk> {
    {d, d.(journal := Committing(g)),
     d.(journal := Committing(g), committed := g),
     d.(journal := NoJournal, committed := g)}
  }

  ghost function AbortStates(d: Disk): set<Disk> {
    {d, d.(journal := NoJournal)}
  }

  class ConfigurationAuthority {
    const world: World
    var revision: nat
    var appliedRevision: nat
    var writable: bool
    var requirement: Requirement
    var desired: Document
    var applied: Document
    var staged: Option<Document>

    /** Whatever documents and revisions the last process left. */
    constructor (w: World)
      ensures world == w && Consistent()
    {
      world := w;
      var current: nat, behind: nat :| 0 <= current && 0 <= behind;
      var want, have: Document := *, *;
      revision, appliedRevision, writable, requirement := current + behind, current, *, *;
      desired, applied, staged := want, if behind == 0 then want else have, *;
    }

    /** A revision names one desired state; the applied revision's is the applied one. */
    predicate Consistent()
      reads this
    {
      && appliedRevision <= revision
      && (appliedRevision == revision ==> applied == desired)
    }

    /** The state a commit makes applied: the staged document if there is one. */
    ghost function Intended(): Document
      reads this
    {
      if staged.Some? then staged.value else desired
    }

    method AdoptDesired()
      requires Consistent()
      modifies this
      ensures Consistent() && revision >= old(revision) && appliedRevision == revision
      ensures applied == desired == old(Intended()) && staged.None?
      ensures revision == old(revision) + if old(staged).Some? then 1 else 0
      ensures requirement == old(requirement) && writable == old(writable)
    {
      if staged.Some? {
        revision, desired := revision + 1, staged.value;
      }
      appliedRevision, applied, staged := revision, desired, None;
    }

    function Published(): (s: Snapshot)
      reads this, world
    {
      var current := revision == appliedRevision;
      Snapshot(true, writable, revision, appliedRevision, if current then Current else Pending,
               if current then None else Some(requirement), world.disk.committed, desired, applied)
    }

    /** What a call may report about the authority: the exact tuple, or unavailability. */
    ghost predicate Reports(s: Snapshot)
      reads this, world
    {
      s.available ==> s == Published()
    }

    method Report() returns (s: Snapshot)
      ensures Reports(s) && (s.available || s.applyState == Failed)
    {
      s := Published();
      var lost: bool := *;
      if lost {
        s := s.(available := false, writable := false, applyState := Failed);
      }
    }

    /** Startup: a Prepared journal is removed, a Committing one rolls forward. */
    method Initialize() returns (r: AuthorityResult)
      requires world.Valid() && Consistent()
      modifies this, world`disk, world`trace, world`refusals
      ensures world.Valid() && Consistent()
      ensures world.refusals >= old(world.refusals)
      ensures Grew(old(world.trace), world.trace,
                {old(world.disk), old(world.disk).(committed := Decision(old(world.disk))),
                 Initialized(old(world.disk))})
      ensures r.success ==> world.disk == Initialized(old(world.disk)) && Reports(r.snapshot)
      ensures world.refusals == old(world.refusals) ==> r.success && r.snapshot.available
    {
      var unreadable: bool := *;
      if unreadable {
        world.Refuse();
        var s := Report();
        return AuthorityResult(false, false, false, s.(available := false), None);
      }
      if world.disk.journal.Committing? {
        world.Write(world.disk.(committed := world.disk.journal.gen));
        AdoptDesired();
      }
      var stuck: bool := *;
      if stuck {
        world.Refuse();
        var s := Report();
        return AuthorityResult(false, false, false, s.(available := false), None);
      }
      if world.disk.journal != NoJournal {
        world.Write(world.disk.(journal := NoJournal));
      }
      staged := None;
      r := AuthorityResult(true, false, false, Published(), None);
    }

    /** The shape of a generation when nothing goes wrong. */
    predicate Expected(p: PreparedGeneration, stagedDocument: Option<Document>)
      reads this
    {
      && p.complete && p.qualified
      && p.requirement == (if stagedDocument.Some? then Reload else requirement)
      && p.revision == revision + if stagedDocument.Some? then 1 else 0
    }

    /** `prepareApply`, `prepareRecovery` and `prepareDisplayApply`: a Prepared journal for a
        new generation. Recovery and display previews stage revision N+1 beside the durable
        desired state (`stagedDocument`); a plain apply prepares the desired state itself. A
        generation of another shape than expected counts as a refusal. */
    method Prepare(expectedRevision: nat, stagedDocument: Option<Document>)
      returns (r: AuthorityResult, ghost journalled: Generation)
      requires world.Valid()
      modifies this`staged, world`disk, world`trace, world`refusals, world`log, world`proofs
      ensures world.Valid()
      ensures world.refusals >= old(world.refusals)
      ensures !r.success ==> world.refusals > old(world.refusals)
      ensures world.log == old(world.log) + (if r.success && r.prepared.Some? then [PrepareSucceeded] else [])
      ensures world.proofs ==
          old(world.proofs) + (if r.success && r.prepared.Some? then [Given(r.prepared.value)] else [])
      ensures Reports(r.snapshot) && (r.snapshot.available || r.snapshot.applyState == Failed)
      ensures Grew(old(world.trace), world.trace, PrepareStates(old(world.disk), journalled))
      ensures r.success && r.prepared.Some? ==>
          && old(world.disk).journal == NoJournal
          && world.disk == old(world.disk).(journal := Prepared(r.prepared.value.id))
          && r.prepared.value.id != ""
          && staged == stagedDocument
          && expectedRevision == revision
      ensures r.success ==> r.snapshot == Published()
      ensures r.success && r.prepared.None? ==> world.refusals > old(world.refusals)
      ensures !r.success && r.snapshot.available ==> world.disk == old(world.disk)
      ensures world.refusals == old(world.refusals) ==>
          r.success && r.snapshot.available && r.prepared.Some? && Expected(r.prepared.value, stagedDocument)
    {
      var g: Generation := *;
      var before := world.disk;
      journalled := g;
      var refused: bool := *;
      if refused || before.journal != NoJournal || expectedRevision != revision || g == "" {
        world.Refuse();
        var s := Report();
        return AuthorityResult(false, false, false, s, None), g;
      }
      world.Write(before.(journal := Prepared(g)));
      var unsynced: bool := *;
      if unsynced {
        world.Refuse();
        var s := Report();
        return AuthorityResult(false, false, false, s.(available := false, applyState := Failed), None), g;
      }
      staged := stagedDocument;
      var p: PreparedGeneration := *;
      p := p.(id := g);
      if !Expected(p, stagedDocument) {
        world.Refuse();
      }
      world.Record(PrepareSucceeded);
      world.Prove(Given(p));
      r := AuthorityResult(true, false, false, Published(), Some(p));
    }

    /** `commitApply`: one-way once its marker may be visible. */
    method CommitApply(g: Generation) returns (r: AuthorityResult)
      requires world.Valid() && Consistent()
      modifies this, world`disk, world`trace, world`refusals, world`log
      ensures world.Valid() && Consistent()
      ensures revision >= old(revision) && writable == old(writable) && requirement == old(requirement)
      ensures (appliedRevision == revision && applied == old(Intended()))
          || (revision == old(revision) && appliedRevision == old(appliedRevision)
              && desired == old(desired) && applied == old(applied))
      ensures world.refusals >= old(world.refusals)
      ensures !r.success ==> world.refusals > old(world.refusals)
      ensures Grew(old(world.trace), world.trace,
                if old(world.disk).journal == Prepared(g) then CommitStates(old(world.disk), g)
                else {old(world.disk)})
      ensures Reports(r.snapshot) && (r.snapshot.available || r.snapshot.applyState == Failed)
      ensures r.success ==>
          && old(world.disk).journal == Prepared(g)
          && world.disk == old(world.disk).(journal := NoJournal, committed := g)
          && r.snapshot.generation == g
          && r.snapshot.appliedRevision == r.snapshot.revision
      ensures r.success ==>
          && applied == desired == old(Intended()) && staged.None?
          && appliedRevision == revision == old(revision) + if old(staged).Some? then 1 else 0
      ensures !r.success && !r.commitDecisionMayExist && !r.commitDecisionDurable ==>
          world.disk == old(world.disk) && Published() == old(Published())
      ensures world.log == old(world.log)
          + [CommitCalled(r.success || r.commitDecisionMayExist || r.commitDecisionDurable, r.success)]
      ensures world.refusals == old(world.refusals) && old(world.disk).journal == Prepared(g) ==>
          r.success && r.snapshot.available
    {
      var before := world.disk;
      var refused: bool := *;
      var mayExist: bool := *;
      if refused || before.journal != Prepared(g) {
        world.Refuse();
        var s := Report();
        // The outcome of the committing rename may be uncertain although nothing became visible.
        mayExist := mayExist && before.journal == Prepared(g);
        world.Record(CommitCalled(mayExist, false));
        return AuthorityResult(false, false, mayExist, s, None);
      }
      world.Write(before.(journal := Committing(g)));
      var unsynced: bool := *;
      var durable: bool := *;
      if unsynced {
        world.Refuse();
        var s := Report();
        world.Record(CommitCalled(true, false));
        return AuthorityResult(false, durable, true, s, None);
      }
      world.Write(world.disk.(committed := g));
      AdoptDesired();
      var interrupted: bool := *;
      if interrupted {
        world.Refuse();
        var s := Report();
        world.Record(CommitCalled(true, false));
        return AuthorityResult(false, true, true, s, None);
      }
      world.Write(world.disk.(journal := NoJournal));
      world.Record(CommitCalled(true, true));
      r := AuthorityResult(true, true, true, Published(), None);
    }

    /** `abortApply`: removes a Prepared journal; an earlier attempt may already have done it. */
    method AbortApply(g: Generation) returns (r: AuthorityResult)
      requires world.Valid()
      modifies this`staged, world`disk, world`trace, world`refusals, world`log
      ensures world.Valid()
      ensures world.refusals >= old(world.refusals)
      ensures !r.success ==> world.refusals > old(world.refusals)
      ensures Grew(old(world.trace), world.trace,
                if old(world.disk).journal == Prepared(g) then AbortStates(old(world.disk))
                else {old(world.disk)})
      ensures Reports(r.snapshot) && (r.snapshot.available || r.snapshot.applyState == Failed)
      ensures r.success ==>
          && old(world.disk).journal in {Prepared(g), NoJournal}
          && world.disk == old(world.disk).(journal := NoJournal)
      ensures world.log == old(world.log) + [AbortCalled(r.success)]
      ensures world.refusals == old(world.refusals) && old(world.disk).journal in {Prepared(g), NoJournal} ==>
          r.success && r.snapshot.available
    {
      var refused: bool := *;
      if refused || !(world.disk.journal in {Prepared(g), NoJournal}) {
        world.Refuse();
        var s := Report();
        world.Record(AbortCalled(false));
        return AuthorityResult(false, false, false, s, None);
      }
      if world.disk.journal != NoJournal {
        world.Write(world.disk.(journal := NoJournal));
      }
      var unsynced: bool := *;
      if unsynced {
        world.Refuse();
        var s := Report();
        world.Record(AbortCalled(false));
        return AuthorityResult(false, false, false, s, None);
      }
      staged := None;
      world.Record(AbortCalled(true));
      r := AuthorityResult(true, false, false, Published(), None);
    }

    /** The safety check of the state that is applied. */
    method CurrentActivationSafe() returns (safe: bool)
      modifies world`refusals
      ensures world.refusals >= old(world.refusals)
      ensures !safe ==> world.refusals > old(world.refusals)
    {
      safe := *;
      if !safe {
        world.Refuse();
      }
    }

    /** `replaceSnapshot`: a new revision, or the exact retry of the previous one. */
    method ReplaceSnapshot(expectedRevision: nat, candidate: Document) returns (r: AuthorityResult)
      requires Consistent()
      modifies this`revision, this`desired, this`requirement, world`refusals
      ensures Consistent()
      ensures revision == old(revision) || revision == old(revision) + 1
      ensures desired == if revision == old(revision) then old(desired) else candidate
      ensures r.success && r.snapshot.revision == old(revision) + 1 ==>
          appliedRevision < revision && expectedRevision == old(revision)
      ensures world.refusals >= old(world.refusals)
      ensures Reports(r.snapshot) && (r.snapshot.available || r.snapshot.applyState == Failed)
      ensures r.success ==> r.snapshot.available && r.snapshot.desired == candidate
      ensures r.success && expectedRevision == old(revision) ==> r.snapshot.revision == old(revision) + 1
      ensures (world.refusals == old(world.refusals)
          && (expectedRevision == old(revision)
              || (expectedRevision + 1 == old(revision) && candidate == old(desired)))) ==>
          r.success
      ensures expectedRevision != old(revision) ==> Published() == old(Published())
      ensures revision == old(revision) ==> Published() == old(Published()) && requirement == old(requirement)
      ensures revision != old(revision) && r.success ==> r.snapshot == Published()
      ensures r.snapshot.available ==>
          (r.success && expectedRevision == old(revision)) || Published() == old(Published())
    {
      var refused: bool := *;
      if expectedRevision + 1 == revision && candidate == desired && !refused {
        return AuthorityResult(true, false, false, Published(), None);
      }
      if refused || expectedRevision != revision {
        world.Refuse();
        var s := Report();
        return AuthorityResult(false, false, false, s, None);
      }
      revision, desired, requirement := revision + 1, candidate, *;
      var unsynced: bool := *;
      if unsynced {
        world.Refuse();
        return AuthorityResult(false, false, false,
            Published().(available := false, writable := false, applyState := Failed), None);
      }
      r := AuthorityResult(true, false, false, Published(), None);
    }
  }

  // ---- The live entrypoint publisher ----

  datatype PublishResult = PublishResult(
    success: bool,
    namespaceMayHaveChanged: bool,
    receipt: nat,
    status: ManagementStatus
  )

  datatype PublisherResult = PublisherResult(success: bool, status: ManagementStatus)

  function PublishedBridge(d: Disk, token: nat, target: Generation): Bridge {
    Bridge(token, target, d.ownership)
  }

  /** The bridge is journalled before the entrypoint is exchanged. */
  ghost function PublishStates(d: Disk, token: nat, target: Generation): set<Disk> {
    var b := PublishedBridge(d, token, target);
    {d, d.(bridge := Some(b)), d.(bridge := Some(b), entrypoint := target)}
  }

  ghost function RestoreStates(d: Disk): set<Disk> {
    {d} + if d.bridge.Some? then {d.(entrypoint := d.bridge.value.prior)} else {}
  }

  function SideOf(b: Bridge, target: bool): Generation {
    if target then b.target else b.prior
  }

  /** The ownership record is renamed before the bridge is removed. */
  ghost function FinalizeStates(d: Disk, target: bool): set<Disk> {
    {d} + if d.bridge.None? then {} else
      var side := SideOf(d.bridge.value, target);
      {d.(ownership := side), d.(ownership := side, bridge := None)}
  }

  /** A status the publisher may observe: a conflict, or ownership by a generation that the
      disk really names. */
  ghost predicate Plausible(d: Disk, s: ManagementStatus) {
    || s.state == Conflict
    || (s.state == Managed && s.generation != "" && s.generation in {d.entrypoint, d.ownership})
    || (s.state == Unmanaged && s.generation == "" && "" in {d.entrypoint, d.ownership})
  }

  class EntrypointPublisher {
    const world: World

    constructor (w: World)
      ensures world == w
    {
      world := w;
    }

    method Observe(g: Generation) returns (s: ManagementStatus)
      ensures s.generation == g
      ensures s.state == if g == "" then Unmanaged else Managed
      ensures s.kind != Unsafe
    {
      var digest: string := *;
      var kind: EntrypointKind := if g == "" && digest == "" then Absent else Regular;
      s := ManagementStatus(if g == "" then Unmanaged else Managed, kind, digest, g);
    }

    method Status() returns (s: ManagementStatus)
      requires world.Valid()
      modifies world`refusals
      ensures world.refusals >= old(world.refusals)
      ensures Plausible(world.disk, s)
      ensures s.state != Previewing
      ensures world.refusals == old(world.refusals) ==> s.state != Conflict
    {
      var live: bool := *;
      s := Observe(if live then world.disk.entrypoint else world.disk.ownership);
      var unsafeFile: bool := *;
      if unsafeFile {
        world.Refuse();
        s := s.(state := Conflict);
      }
    }

    method Publish(target: Generation) returns (r: PublishResult)
      requires world.Valid()
      modifies world`disk, world`trace, world`refusals, world`nextToken
      ensures world.Valid()
      ensures world.refusals >= old(world.refusals)
      ensures !r.success ==> world.refusals > old(world.refusals)
      ensures Grew(old(world.trace), world.trace,
                PublishStates(old(world.disk), old(world.nextToken), target))
      ensures !r.success && !r.namespaceMayHaveChanged && r.receipt == 0 ==> world.disk == old(world.disk)
      ensures r.receipt != 0 ==>
          && r.receipt == old(world.nextToken)
          && world.disk.bridge == Some(PublishedBridge(old(world.disk), r.receipt, target))
      ensures r.success ==> r.receipt != 0 && world.disk.entrypoint == target
    {
      var token, before := world.nextToken, world.disk;
      var b := PublishedBridge(before, token, target);
      world.nextToken := token + 1;
      var s := Observe(before.ownership);
      var refused: bool := *;
      var changed: bool := *;
      if refused {
        world.Refuse();
        return PublishResult(false, changed, 0, s);
      }
      world.Write(before.(bridge := Some(b)));
      var unready: bool := *;
      var known: bool := *;
      if unready {
        world.Refuse();
        return PublishResult(false, true, if known then token else 0, s);
      }
      world.Write(world.disk.(entrypoint := target));
      var unsynced: bool := *;
      if unsynced {
        world.Refuse();
        return PublishResult(false, true, if known then token else 0, s);
      }
      s := Observe(target);
      r := PublishResult(true, true, token, s);
    }

    method PendingReconciliation() returns (ok: bool, pending: Option<Bridge>)
      requires world.Valid()
      modifies world`refusals, world`proofs
      ensures world.refusals >= old(world.refusals)
      ensures ok ==> pending == world.disk.bridge
      ensures !ok ==> pending == None && world.refusals > old(world.refusals)
      ensures world.proofs == old(world.proofs) + if ok then [Bridged(pending)] else []
    {
      var unreadable: bool := *;
      if unreadable {
        world.Refuse();
        return false, None;
      }
      ok, pending := true, world.disk.bridge;
      world.Prove(Bridged(pending));
    }

    method Rollback(receipt: nat) returns (r: PublisherResult)
      requires world.Valid()
      modifies world`disk, world`trace, world`refusals, world`proofs
      ensures world.Valid()
      ensures world.refusals >= old(world.refusals)
      ensures !r.success ==> world.refusals > old(world.refusals)
      ensures world.proofs == old(world.proofs) + if r.success then [Exchanged(receipt)] else []
      ensures Grew(old(world.trace), world.trace, RestoreStates(old(world.disk)))
      ensures r.success ==>
          && old(world.disk).bridge.Some? && old(world.disk).bridge.value.token == receipt
          && world.disk == old(world.disk).(entrypoint := old(world.disk).bridge.value.prior)
    {
      var s := Status();
      var refused: bool := *;
      if refused || world.disk.bridge.None? || world.disk.bridge.value.token != receipt {
        world.Refuse();
        return PublisherResult(false, s);
      }
      world.Write(world.disk.(entrypoint := world.disk.bridge.value.prior));
      var unsynced: bool := *;
      if unsynced {
        world.Refuse();
        return PublisherResult(false, s);
      }
      world.Prove(Exchanged(receipt));
      r := PublisherResult(true, s);
    }

    method Finalize(receipt: nat, target: bool) returns (r: PublisherResult)
      requires world.Valid()
      modifies world`disk, world`trace, world`refusals
      ensures world.Valid()
      ensures world.refusals >= old(world.refusals)
      ensures !r.success ==> world.refusals > old(world.refusals)
      ensures Grew(old(world.trace), world.trace, FinalizeStates(old(world.disk), target))
      ensures r.success ==>
          && old(world.disk).bridge.Some? && old(world.disk).bridge.value.token == receipt
          && world.disk == old(world.disk).(ownership := SideOf(old(world.disk).bridge.value, target), bridge := None)
          && r.status.generation == world.disk.ownership
          && r.status.state == (if world.disk.ownership == "" then Unmanaged else Managed)
    {
      var s := Status();
      var refused: bool := *;
      if refused || world.disk.bridge.None? || world.disk.bridge.value.token != receipt {
        world.Refuse();
        return PublisherResult(false, s);
      }
      world.Write(world.disk.(ownership := SideOf(world.disk.bridge.value, target)));
      var unsynced: bool := *;
      if unsynced {
        world.Refuse();
        return PublisherResult(false, s);
      }
      world.Write(world.disk.(bridge := None));
      var unremoved: bool := *;
      if unremoved {
        world.Refuse();
        return PublisherResult(false, s);
      }
      s := Observe(world.disk.ownership);
      r := PublisherResult(true, s);
    }

    method VerifyTransition(receipt: nat, target: bool) returns (r: PublisherResult)
      requires world.Valid()
      modifies world`refusals, world`proofs
      ensures world.proofs == old(world.proofs) + if r.success then [Exact(receipt, target)] else []
      ensures world.refusals >= old(world.refusals)
      ensures !r.success ==> world.refusals > old(world.refusals)
      ensures r.success ==>
          && world.disk.bridge.Some? && world.disk.bridge.value.token == receipt
          && world.disk.entrypoint == SideOf(world.disk.bridge.value, target)
          && r.status.generation == world.disk.entrypoint
          && r.status.state == (if world.disk.entrypoint == "" then Unmanaged else Managed)
    {
      var refused: bool := *;
      if refused || world.disk.bridge.None? || world.disk.bridge.value.token != receipt
         || world.disk.entrypoint != SideOf(world.disk.bridge.value, target) {
        world.Refuse();
        var s := Status();
        return PublisherResult(false, s);
      }
      var s := Observe(world.disk.entrypoint);
      world.Prove(Exact(receipt, target));
      r := PublisherResult(true, s);
    }
  }

  // ---- The Hyprland runtime ----

  datatype Topology = Topology(runtimeIdentity: string, digest: string, acceptsProfile: bool, realizesProfile: bool)

  class HyprlandRuntime {
    const world: World

    constructor (w: World)
      ensures world == w
    {
      world := w;
    }

    method CanSatisfy(requirement: Requirement) returns (ok: bool)
      modifies world`refusals, world`proofs
      ensures world.refusals >= old(world.refusals)
      ensures !ok ==> world.refusals > old(world.refusals)
      ensures world.proofs == old(world.proofs) + if ok then [Satisfies(requirement)] else []
    {
      ok := *;
      if ok {
        world.Prove(Satisfies(requirement));
      } else {
        world.Refuse();
      }
    }

    method PrepareSession(mode: Mode) returns (ok: bool, runtimeIdentity: string)
      modifies world`refusals, world`proofs
      ensures world.refusals >= old(world.refusals)
      ensures !ok ==> world.refusals > old(world.refusals)
      ensures world.proofs == old(world.proofs) + if ok then [Opened(mode, runtimeIdentity)] else []
    {
      ok, runtimeIdentity := *, *;
      if ok {
        world.Prove(Opened(mode, runtimeIdentity));
      } else {
        world.Refuse();
      }
    }

    /** The exact nonce of the entrypoint must come back; otherwise nobody knows what runs. */
    method ReloadAndConfirm() returns (ok: bool)
      modifies world`refusals, world`proofs, world`running
      ensures world.refusals >= old(world.refusals)
      ensures ok ==> world.running == world.disk.entrypoint
      ensures !ok ==> world.refusals > old(world.refusals)
      ensures world.proofs == old(world.proofs) + if ok then [Loaded(world.disk.entrypoint)] else []
    {
      ok, world.running := *, *;
      if ok {
        world.running := world.disk.entrypoint;
        world.Prove(Loaded(world.running));
      } else {
        world.Refuse();
      }
    }

    method ConnectedDisplays() returns (t: Option<Topology>)
      modifies world`refusals, world`proofs
      ensures world.refusals >= old(world.refusals)
      ensures t.None? ==> world.refusals > old(world.refusals)
      ensures world.proofs == old(world.proofs) + if t.Some? then [Displays(t.value)] else []
    {
      t := *;
      if t.Some? {
        world.Prove(Displays(t.value));
      } else {
        world.Refuse();
      }
    }
  }
}

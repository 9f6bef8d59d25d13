/** The two-party commit between the durable configuration authority and the live
    entrypoint publisher, as data: what is on disk, and the order in which the service
    calls the two parties. Classes in `DurableWorld`, `LiveBackend` and `Compositor` drive
    these states; the lemmas here are about every run. */
module ActivationProtocol {
  import opened Options

  /** A generation digest; the empty string means "no generation" (an unmanaged entrypoint). */
  type Generation = string

  datatype Journal =
    | NoJournal
    | Prepared(gen: Generation)
    | Committing(gen: Generation)

  /** The publisher's rollback bridge. */
  datatype Bridge = Bridge(token: nat, target: Generation, prior: Generation)

  /** Everything that survives a crash. `entrypoint` is the generation the live entrypoint
      file belongs to and `ownership` the generation named by the ownership record. */
  datatype Disk = Disk(
    committed: Generation,
    journal: Journal,
    bridge: Option<Bridge>,
    entrypoint: Generation,
    ownership: Generation
  )

  /** What `ConfigurationAuthority::initialize` will call committed: a Committing journal
      rolls forward, a Prepared one is dropped. */
  function Decision(d: Disk): Generation {
    match d.journal
    case Committing(g) => g
    case _ => d.committed
  }

  ghost function Initialized(d: Disk): Disk {
    d.(committed := Decision(d), journal := NoJournal)
  }

  /** Both parties agree and nothing is outstanding. */
  ghost predicate Settled(d: Disk) {
    && d.journal == NoJournal
    && d.bridge == None
    && d.entrypoint == d.committed
    && d.ownership == d.committed
  }

  /** A crash here leaves startup a decidable situation: with no bridge the ownership
      already matches the decision; with a bridge the decision is one of its two sides,
      and a decision for the target is only ever taken once the target is live. */
  predicate CrashSafe(d: Disk) {
    match d.bridge
    case None => d.entrypoint == Decision(d) && d.ownership == Decision(d)
    case Some(b) =>
      && b.token != 0 && b.target != ""
      && d.entrypoint in {b.target, b.prior}
      && d.ownership in {b.target, b.prior}
      && ((Decision(d) == b.target && d.entrypoint == b.target) || Decision(d) == b.prior)
  }

  /** Disk states a step may leave behind, newest last. */
  ghost predicate Grew(before: seq<Disk>, after: seq<Disk>, allowed: set<Disk>) {
    && before <= after
    && forall i | |before| <= i < |after| :: after[i] in allowed
  }

  ghost predicate AllCrashSafe(trace: seq<Disk>) {
    forall i | 0 <= i < |trace| :: CrashSafe(trace[i])
  }

  // ---- The order of calls ----

  datatype TerminalAction = Confirmed | Reverted | Expired

  datatype Event =
    | PrepareSucceeded
    | Activated(mayHaveOccurred: bool)
    | CapabilityInstalled(serial: nat)
    | TerminationStarted(serial: nat)
    | RollbackCalled(success: bool)
    | AbortCalled(success: bool)
    | CommitCalled(decided: bool, success: bool)
    | FinalizeCalled(success: bool)
    | CapabilityEnded(serial: nat, action: TerminalAction)

  /** Where one transaction stands. A capability, when there is one, is known by the
      number of capabilities installed before it. */
  datatype Phase =
    | Quiet
    | Staged
    | Live(mayHaveOccurred: bool)
    | Preview(serial: nat, terminating: bool)
    | Restored(capability: Option<nat>)
    | Decided(capability: Option<nat>)
    | Confirming(serial: nat)
    | Ending(serial: nat)
    | Stuck
    | Rejected

  datatype Monitor = Monitor(phase: Phase, installs: nat)

  function Advance(m: Monitor, e: Event): Monitor {
    m.(phase := Next(m, e), installs := if e.CapabilityInstalled? then m.installs + 1 else m.installs)
  }

  function Next(m: Monitor, e: Event): Phase {
    match (m.phase, e)
    case (Quiet, PrepareSucceeded) => Staged
    case (Staged, Activated(may)) => Live(may)
    case (Staged, AbortCalled(ok)) => if ok then Quiet else Stuck
    case (Live(may), AbortCalled(ok)) => if may then Rejected else if ok then Quiet else Stuck
    case (Live(_), RollbackCalled(ok)) => if ok then Restored(None) else Stuck
    case (Live(may), CommitCalled(decided, ok)) =>
      if !may || (ok && !decided) then Rejected
      else if !decided then m.phase
      else if ok then Decided(None) else Stuck
    case (Live(may), CapabilityInstalled(s)) =>
      if may && s == m.installs then Preview(s, false) else Rejected
    case (Preview(s, _), TerminationStarted(t)) => if s == t then Preview(s, true) else Rejected
    case (Preview(s, terminating), RollbackCalled(ok)) =>
      if !terminating then Rejected else if ok then Restored(Some(s)) else m.phase
    case (Preview(s, terminating), CommitCalled(decided, ok)) =>
      if terminating || (ok && !decided) then Rejected
      else if !decided then m.phase
      else if ok then Decided(Some(s)) else Stuck
    case (Restored(c), TerminationStarted(t)) => if c == Some(t) then m.phase else Rejected
    case (Restored(c), AbortCalled(ok)) =>
      (match c
       case None => if ok then Quiet else Stuck
       case Some(s) => if ok then Ending(s) else m.phase)
    case (Decided(c), FinalizeCalled(ok)) =>
      if !ok then Stuck else (match c case None => Quiet case Some(s) => Confirming(s))
    case (Confirming(s), CapabilityEnded(t, a)) => if s == t && a == Confirmed then Quiet else Rejected
    case (Ending(s), CapabilityEnded(t, a)) => if s == t && a != Confirmed then Quiet else Rejected
    case _ => Rejected
  }

  function Observe(log: seq<Event>): Monitor {
    if log == [] then Monitor(Quiet, 0) else Advance(Observe(log[..|log| - 1]), log[|log| - 1])
  }

  lemma ObserveAppend(log: seq<Event>, e: Event)
    ensures Observe(log + [e]) == Advance(Observe(log), e)
  {
    assert (log + [e])[..|log|] == log;
  }

  predicate Accepted(log: seq<Event>) {
    Observe(log).phase != Rejected
  }

  lemma ObserveStep(log: seq<Event>, n: nat)
    requires n < |log|
    ensures Observe(log[..n + 1]) == Advance(Observe(log[..n]), log[n])
  {
    assert log[..n + 1][..n] == log[..n];
  }

  lemma {:induction false} AcceptedPrefix(log: seq<Event>, n: nat)
    requires Accepted(log) && n <= |log|
    ensures Accepted(log[..n])
    decreases |log| - n
  {
    if n == |log| {
      assert log[..n] == log;
    } else {
      AcceptedPrefix(log, n + 1);
      ObserveStep(log, n);
    }
  }

  ghost predicate PrepareBetween(log: seq<Event>, i: nat, j: nat)
    requires j <= |log|
  {
    exists k :: i < k < j && log[k].PrepareSucceeded?
  }

  ghost predicate AfterDecision(p: Phase) {
    p.Decided? || p.Confirming? || p.Quiet? || p.Stuck?
  }

  lemma {:induction false} StaysAfterDecision(log: seq<Event>, i: nat, j: nat)
    requires Accepted(log) && i < j <= |log|
    requires log[i].CommitCalled? && log[i].decided && !PrepareBetween(log, i, j)
    ensures AfterDecision(Observe(log[..j]).phase)
    decreases j
  {
    ObserveStep(log, j - 1);
    AcceptedPrefix(log, j);
    if j > i + 1 {
      StaysAfterDecision(log, i, j - 1);
    }
  }

  /** Once a commit succeeds or reports that its decision may exist, that transaction is
      never rolled back and never aborted. */
  lemma CommitIsOneWay(log: seq<Event>, i: nat, j: nat)
    requires Accepted(log) && i < j < |log|
    requires log[i].CommitCalled? && (log[i].decided || log[i].success)
    requires log[j].RollbackCalled? || log[j].AbortCalled?
    ensures PrepareBetween(log, i, j)
  {
    AcceptedPrefix(log, i + 1);
    ObserveStep(log, i);
    AcceptedPrefix(log, j + 1);
    ObserveStep(log, j);
    if !PrepareBetween(log, i, j) {
      StaysAfterDecision(log, i, j);
    }
  }

  ghost predicate RollbackSucceededBetween(log: seq<Event>, i: nat, j: nat)
    requires j <= |log|
  {
    exists k :: i < k < j && log[k] == RollbackCalled(true)
  }

  ghost predicate MayBeLive(p: Phase) {
    p == Live(true) || p.Preview? || AfterDecision(p)
  }

  lemma {:induction false} StaysLive(log: seq<Event>, i: nat, j: nat)
    requires Accepted(log) && i < j <= |log|
    requires log[i] == Activated(true)
    requires !PrepareBetween(log, i, j) && !RollbackSucceededBetween(log, i, j)
    ensures MayBeLive(Observe(log[..j]).phase)
    decreases j
  {
    ObserveStep(log, j - 1);
    AcceptedPrefix(log, j);
    if j > i + 1 {
      StaysLive(log, i, j - 1);
    }
  }

  /** After an activation that may have occurred, the prepared transaction is aborted only
      after a successful rollback. */
  lemma RollbackBeforeAbort(log: seq<Event>, i: nat, j: nat)
    requires Accepted(log) && i < j < |log|
    requires log[i] == Activated(true) && log[j].AbortCalled?
    ensures PrepareBetween(log, i, j) || RollbackSucceededBetween(log, i, j)
  {
    AcceptedPrefix(log, j + 1);
    ObserveStep(log, j);
    if !PrepareBetween(log, i, j) && !RollbackSucceededBetween(log, i, j) {
      StaysLive(log, i, j);
    }
  }

  ghost predicate AfterRollback(p: Phase) {
    p.Restored? || p.Ending? || p.Quiet? || p.Stuck?
  }

  lemma {:induction false} StaysRolledBack(log: seq<Event>, i: nat, j: nat)
    requires Accepted(log) && i < j <= |log|
    requires log[i] == RollbackCalled(true) && !PrepareBetween(log, i, j)
    ensures AfterRollback(Observe(log[..j]).phase)
    decreases j
  {
    ObserveStep(log, j - 1);
    AcceptedPrefix(log, j);
    if j > i + 1 {
      StaysRolledBack(log, i, j - 1);
    }
  }

  /** A transaction is rolled back successfully at most once, and after that neither rolled
      back again nor committed. */
  lemma RollbackOnlyOnce(log: seq<Event>, i: nat, j: nat)
    requires Accepted(log) && i < j < |log|
    requires log[i] == RollbackCalled(true)
    requires log[j].RollbackCalled? || log[j].CommitCalled?
    ensures PrepareBetween(log, i, j)
  {
    AcceptedPrefix(log, j + 1);
    ObserveStep(log, j);
    if !PrepareBetween(log, i, j) {
      StaysRolledBack(log, i, j);
    }
  }

  ghost predicate ClosedBetween(log: seq<Event>, i: nat, j: nat)
    requires j <= |log|
  {
    exists k :: i < k < j && (log[k] == AbortCalled(true) || log[k] == FinalizeCalled(true))
  }

  lemma {:induction false} StaysOutstanding(log: seq<Event>, i: nat, j: nat)
    requires Accepted(log) && i < j <= |log|
    requires log[i].PrepareSucceeded? && !ClosedBetween(log, i, j)
    ensures var p := Observe(log[..j]).phase;
      !p.Quiet? && !p.Confirming? && !p.Ending?
    decreases j
  {
    ObserveStep(log, j - 1);
    AcceptedPrefix(log, j);
    if j > i + 1 {
      StaysOutstanding(log, i, j - 1);
    }
  }

  /** At most one transaction is outstanding: between two successful prepares the first was
      either aborted or finalized. */
  lemma OneTransactionAtATime(log: seq<Event>, i: nat, j: nat)
    requires Accepted(log) && i < j < |log|
    requires log[i].PrepareSucceeded? && log[j].PrepareSucceeded?
    ensures ClosedBetween(log, i, j)
  {
    AcceptedPrefix(log, j + 1);
    ObserveStep(log, j);
    if !ClosedBetween(log, i, j) {
      StaysOutstanding(log, i, j);
    }
  }

  // ---- Display capabilities ----

  /** Capability `s` was installed and can no longer be confirmed. */
  ghost predicate CannotConfirm(m: Monitor, s: nat) {
    && s < m.installs
    && (match m.phase
        case Preview(t, terminating) => t == s ==> terminating
        case Decided(c) => c != Some(s)
        case Confirming(t) => t != s
        case _ => true)
  }

  lemma {:induction false} TerminationIsFinal(log: seq<Event>, i: nat, j: nat, s: nat)
    requires Accepted(log) && i < j <= |log|
    requires log[i] == TerminationStarted(s)
    ensures CannotConfirm(Observe(log[..j]), s)
    decreases j
  {
    ObserveStep(log, j - 1);
    AcceptedPrefix(log, j);
    AcceptedPrefix(log, j - 1);
    if j > i + 1 {
      TerminationIsFinal(log, i, j - 1, s);
    } else {
      SerialsAreInstalled(log, i);
    }
  }

  ghost function SerialOf(p: Phase): Option<nat> {
    match p
    case Preview(s, _) => Some(s)
    case Restored(c) => c
    case Decided(c) => c
    case Confirming(s) => Some(s)
    case Ending(s) => Some(s)
    case _ => None
  }

  lemma {:induction false} SerialsAreInstalled(log: seq<Event>, n: nat)
    requires Accepted(log) && n <= |log|
    ensures var m := Observe(log[..n]); SerialOf(m.phase).Some? ==> SerialOf(m.phase).value < m.installs
  {
    if n > 0 {
      AcceptedPrefix(log, n);
      ObserveStep(log, n - 1);
      SerialsAreInstalled(log, n - 1);
    }
  }

  /** Once termination of a capability has started, even if that revert failed, no commit
      made while it is installed is ever accepted and it is never reported Confirmed. */
  lemma TerminatedIsNeverConfirmed(log: seq<Event>, i: nat, j: nat, s: nat)
    requires Accepted(log) && i < j < |log|
    requires log[i] == TerminationStarted(s)
    ensures log[j] != CapabilityEnded(s, Confirmed)
    ensures log[j].CommitCalled? ==> SerialOf(Observe(log[..j]).phase) != Some(s)
  {
    TerminationIsFinal(log, i, j, s);
    AcceptedPrefix(log, j + 1);
    ObserveStep(log, j);
  }

  /** Capability `s` has ended: no phase refers to it any more. */
  lemma {:induction false} EndedIsGone(log: seq<Event>, i: nat, j: nat, s: nat)
    requires Accepted(log) && i < j <= |log|
    requires log[i].CapabilityEnded? && log[i].serial == s
    ensures var m := Observe(log[..j]); s < m.installs && SerialOf(m.phase) != Some(s)
    decreases j
  {
    ObserveStep(log, j - 1);
    AcceptedPrefix(log, j);
    if j > i + 1 {
      EndedIsGone(log, i, j - 1, s);
    } else {
      SerialsAreInstalled(log, i);
    }
  }

  /** Each capability reaches at most one of Confirmed, Reverted and Expired. */
  lemma OneTerminalPerCapability(log: seq<Event>, i: nat, j: nat)
    requires Accepted(log) && i < |log| && j < |log|
    requires log[i].CapabilityEnded? && log[j].CapabilityEnded? && log[i].serial == log[j].serial
    ensures i == j
  {
    var a, b := if i < j then i else j, if i < j then j else i;
    if a < b {
      EndedIsGone(log, a, b, log[a].serial);
      AcceptedPrefix(log, b + 1);
      ObserveStep(log, b);
    }
  }
}

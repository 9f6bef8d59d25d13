/** The repeat-capture of five fixed records: two passes over a directory that anybody may
    change between any two system calls. `Kernel` answers every call arbitrarily and keeps,
    as ghost state, what it answered and how often that was not what an environment that keeps
    still would answer; descriptors are handles that are never reused. */
module FixedRecordCapture {
  import opened Options

  const RECORDS := 5
  const ROOT := 5
  const READ_BUFFER := 4096
  const EXTRA_PREADS := 129
  const PROOF_ATTEMPTS := 12000
  const CLEANUP_RESERVE := 32
  const MAXIMUM_RETURNED_BYTES := 41976321

  type Byte = b: nat | b < 0x100
  type Bytes = seq<Byte>
  type Handle = nat

  function MaximumBytes(i: nat): (m: nat)
    requires i < RECORDS
  {
    if i == 0 then 256 else if i == 4 then 8404992 else 4194304
  }

  function MaximumPreads(i: nat): nat
    requires i < RECORDS
  {
    (MaximumBytes(i) + READ_BUFFER - 1) / READ_BUFFER + EXTRA_PREADS
  }

  datatype FileKind = Directory | Regular | OtherKind

  /** What `sameSnapshot` compares: equality of these is its equality. */
  datatype Stat = Stat(
    device: int, inode: int, kind: FileKind, permissions: int, uid: int, gid: int, links: int,
    size: int, modified: int, modifiedNanoseconds: int, changed: int, changedNanoseconds: int
  )

  datatype Lookup = Found(stat: Stat) | NoEntry | LookupFailed
  /** What was reported about a record (or the root): its stat, or that there is no entry. */
  type Report = (nat, Option<Stat>)

  /** What a lookup by name reports; one that fails reports nothing. */
  function Told(subject: nat, r: Lookup): seq<Report> {
    match r
    case Found(stat) => [(subject, Some(stat))]
    case NoEntry => [(subject, None)]
    case LookupFailed => []
  }

  datatype Io = Returned(bytes: Bytes) | Interrupted | Refused

  predicate SaneRanges(s: Stat) {
    s.size >= 0 && s.links > 0 && 0 <= s.modifiedNanoseconds <= 999999999 && 0 <= s.changedNanoseconds <= 999999999
  }

  const PRIVATE_DIRECTORY := 0x1C0
  const PRIVATE_FILE := 0x180

  predicate SafeRoot(s: Stat, owner: int) {
    s.kind == Directory && SaneRanges(s) && s.uid == owner && s.permissions == PRIVATE_DIRECTORY
  }

  predicate SafeRecord(s: Stat, root: Stat, maximum: nat) {
    && s.kind == Regular && SaneRanges(s) && s.device == root.device && s.uid == root.uid
    && s.links == 1 && s.permissions == PRIVATE_FILE && s.size <= maximum
  }

  lemma SafeSize(s: Stat, root: Stat, maximum: nat)
    requires SafeRecord(s, root, maximum)
    ensures 0 <= s.size <= maximum
  {
  }

  predicate SameIdentity(a: Stat, b: Stat) {
    a.device == b.device && a.inode == b.inode
  }

  // ---- An environment that keeps still ----

  /** A directory and its records as nobody changes them, and who asks. */
  datatype Environment = Environment(owner: int, root: Stat, records: seq<Option<(Stat, Bytes)>>) {
    function At(i: nat): Option<(Stat, Bytes)> {
      if i < |records| then records[i] else None
    }

    ghost function Named(i: nat): Lookup {
      if At(i).Some? then Found(At(i).value.0) else NoEntry
    }

    ghost function StatOf(subject: nat): Option<Stat> {
      if subject == ROOT then Some(root) else if At(subject).Some? then Some(At(subject).value.0) else None
    }

    /** What a read of `count` bytes from `offset` gives. */
    function Slice(i: nat, offset: nat, count: nat): Bytes {
      if At(i).None? || offset > |At(i).value.1| then []
      else if offset + count > |At(i).value.1| then At(i).value.1[offset..]
      else At(i).value.1[offset..offset + count]
    }

    function Observed(i: nat): Observation {
      if At(i).Some? then Present(At(i).value.1, At(i).value.0) else Missing
    }

    /** Record `i` is as `named`, and as long as that says. */
    ghost predicate Is(i: nat, named: Stat) {
      At(i).Some? && At(i).value.0 == named && |At(i).value.1| == named.size
    }

    /** Record `i` holds as many bytes. */
    ghost predicate Long(i: nat, size: nat) {
      At(i).Some? && |At(i).value.1| == size
    }

    ghost function Fields(): seq<Option<Bytes>> {
      seq(RECORDS, i requires 0 <= i < RECORDS => if At(i).Some? then Some(At(i).value.1) else None)
    }

    /** A file is as long as its stat says. */
    ghost predicate Consistent() {
      forall i: nat | At(i).Some? :: |At(i).value.1| == At(i).value.0.size
    }

    /** Everything is as the capture asks for. */
    ghost predicate Safe() {
      && SafeRoot(root, owner)
      && (forall i: nat | i < RECORDS && At(i).Some? :: SafeRecord(At(i).value.0, root, MaximumBytes(i)))
      && (forall i: nat, j: nat | i < j < RECORDS && At(i).Some? && At(j).Some? ::
            !SameIdentity(At(i).value.0, At(j).value.0))
    }

    /** What a failure says is wrong is wrong with the environment. */
    ghost predicate Blamed(reason: Reason, subject: Subject) {
      match reason
      case UnsafeStateDirectory => subject == StateDirectory && !SafeRoot(root, owner)
      case UnsafeRecord =>
        && subject.Record? && subject.index < RECORDS && At(subject.index).Some?
        && !SafeRecord(At(subject.index).value.0, root, MaximumBytes(subject.index))
      case RecordIdentityAlias =>
        && subject.Record? && subject.index < RECORDS && At(subject.index).Some?
        && exists i: nat :: i < subject.index && At(i).Some?
             && SameIdentity(At(i).value.0, At(subject.index).value.0)
      case _ => false
    }
  }

  datatype Observation = Missing | Present(bytes: Bytes, metadata: Stat)

  /** After that many whole reads, that much of `size` bytes has been read. */
  predicate InStep(attempts: nat, read: nat, size: nat) {
    && attempts * READ_BUFFER < size + READ_BUFFER
    && read == if attempts * READ_BUFFER <= size then attempts * READ_BUFFER else size
  }

  /** Whole reads leave attempts for the rest and for the probe behind it. */
  lemma StepIsLeft(index: nat, attempts: nat, read: nat, size: nat)
    requires index < RECORDS && size <= MaximumBytes(index)
    ensures InStep(attempts, read, size) ==> attempts < MaximumPreads(index)
    ensures InStep(attempts, read, size) && read < size ==>
        InStep(attempts + 1, read + (if size - read < READ_BUFFER then size - read else READ_BUFFER), size)
  {
    hide MaximumBytes;
  }

  lemma SlicesJoin(e: Environment, i: nat, n: nat, m: nat, size: nat)
    requires n + m <= size
    ensures e.Long(i, size) ==> |e.Slice(i, n, m)| == m && e.Slice(i, 0, n) + e.Slice(i, n, m) == e.Slice(i, 0, n + m)
  {
  }

  lemma NothingBehind(e: Environment, i: nat, size: nat)
    ensures e.Long(i, size) ==> e.Slice(i, size, 1) == []
  {
  }

  lemma WholeSlice(e: Environment, i: nat, size: nat)
    ensures e.Long(i, size) ==> e.Slice(i, 0, size) == e.At(i).value.1
  {
  }

  /** What the capture asks of the directory and the records: a directory that its owner alone
      may read, write and search, and regular files of one name on its device that its owner
      alone may read and write, no longer than their bound, no two of them one file. */
  lemma SafeMeans(e: Environment)
    ensures e.Safe() <==>
        (&& e.root.kind == Directory && e.root.uid == e.owner && e.root.permissions == 7 * 64 && Timed(e.root)
         && (forall i: nat | i < 5 && e.At(i).Some? ::
               && e.At(i).value.0.kind == Regular && e.At(i).value.0.links == 1
               && e.At(i).value.0.device == e.root.device && e.At(i).value.0.uid == e.root.uid
               && e.At(i).value.0.permissions % 64 == 0 && e.At(i).value.0.permissions / 64 == 6
               && 0 <= e.At(i).value.0.size <= [256, 4194304, 4194304, 4194304, 8404992][i] && Timed(e.At(i).value.0))
         && (forall i: nat, j: nat | i < j < 5 && e.At(i).Some? && e.At(j).Some? ::
               e.At(i).value.0.device != e.At(j).value.0.device || e.At(i).value.0.inode != e.At(j).value.0.inode))
  {
  }

  /** The clocks are in range, and there is something to link to. */
  ghost predicate Timed(s: Stat) {
    0 <= s.modifiedNanoseconds < 1000000000 && 0 <= s.changedNanoseconds < 1000000000 && s.size >= 0 && s.links >= 1
  }

  lemma SafeIsBlameless(e: Environment, reason: Reason, subject: Subject)
    ensures e.Safe() ==> !e.Blamed(reason, subject)
  {
    hide SafeRoot, SafeRecord, MaximumBytes;
  }

  lemma AliasIsBlamed(e: Environment, first: seq<Kept>, index: nat)
    requires index < RECORDS == |first| && Distinct(first[..index]) && !Distinct(first[..index + 1])
    requires forall i | 0 <= i <= index :: first[i].observed == e.Observed(i)
    ensures e.Blamed(RecordIdentityAlias, Record(index))
  {
    DistinctBefore(first, index);
    var i, j :| 0 <= i < j < index + 1 && first[i].observed.Present? && first[j].observed.Present?
                && SameIdentity(first[i].observed.metadata, first[j].observed.metadata);
    assert j == index;
  }

  lemma DistinctBefore(first: seq<Kept>, n: nat)
    requires n <= |first| && Distinct(first[..n])
    ensures forall i, j | 0 <= i < j < n && first[i].observed.Present? && first[j].observed.Present? ::
        !SameIdentity(first[i].observed.metadata, first[j].observed.metadata)
  {
    forall i, j | 0 <= i < j < n && first[i].observed.Present? && first[j].observed.Present?
      ensures !SameIdentity(first[i].observed.metadata, first[j].observed.metadata)
    {
      assert first[..n][i] == first[i] && first[..n][j] == first[j];
    }
  }

  /** An environment that was captured as it is was safe. */
  lemma CapturedIsSafe(e: Environment, reports: seq<Report>, contents: map<Handle, (nat, Bytes)>, ended: set<Handle>,
                       fields: seq<Option<Bytes>>, kept: seq<Kept>)
    requires Faithful(reports, contents, ended, fields, e.root, kept) && SafeRoot(e.root, e.owner)
    requires |kept| == RECORDS && forall i | 0 <= i < RECORDS :: kept[i].observed == e.Observed(i)
    ensures e.Safe()
  {
    hide SafeRecord, SafeRoot, MaximumBytes, Agrees;
  }

  lemma SomeReads(index: nat)
    requires index < RECORDS
    ensures MaximumPreads(index) > 0
  {
  }

  // ---- The operating system ----

  class Kernel {
    var next: Handle
    ghost var open: set<Handle>
    ghost var calls: nat
    ghost var returned: nat
    ghost var closes: nat
    ghost var closeFailures: nat
    /** Every stat and every missing entry ever reported. */
    ghost var reports: seq<Report>
    /** What was read through each handle, from its start, and about which record. */
    ghost var contents: map<Handle, (nat, Bytes)>
    /** Handles whose end of file was seen right behind what was read. */
    ghost var ended: set<Handle>
    /** Handles whose flags were as they must be, as often as that was asked. */
    ghost var flagged: multiset<Handle>
    /** The environment, and how many answers were not the whole of what it is. */
    ghost const truth: Environment
    ghost var deviations: nat

    ghost predicate Valid()
      reads this
    {
      && (forall h | h in open :: h < next)
      && (forall h | h in contents :: h < next)
    }

    constructor (ghost truth: Environment)
      ensures this.truth == truth && deviations == 0
      ensures Valid() && open == {} && calls == 0 && returned == 0 && closes == 0 && closeFailures == 0
      ensures reports == [] && contents == map[] && ended == {}
    {
      next, open, calls, returned, closes, closeFailures := 0, {}, 0, 0, 0, 0;
      reports, contents, ended, flagged := [], map[], {}, multiset{};
      this.truth, deviations := truth, 0;
    }

    /** Count an answer that is not what the environment is. */
    ghost method Note(expected: bool)
      modifies this`deviations
      ensures deviations == old(deviations) + if expected then 0 else 1
    {
      if !expected {
        deviations := deviations + 1;
      }
    }

    method Duplicate() returns (h: Option<Handle>)
      requires Valid()
      modifies this`next, this`open, this`calls, this`deviations
      ensures Valid() && calls == old(calls) + 1 && next >= old(next)
      ensures h.Some? ==> h.value == old(next) && next > h.value && open == old(open) + {h.value}
      ensures h.None? ==> open == old(open)
      ensures deviations == old(deviations) + if h.Some? then 0 else 1
    {
      var ok: bool := *;
      calls := calls + 1;
      Note(ok);
      h := None;
      if ok {
        h, open := Some(next), open + {next};
        next := next + 1;
      }
    }

    method Flags(h: Handle) returns (ok: bool)
      requires h in open
      modifies this`calls, this`deviations, this`flagged
      ensures calls == old(calls) + 1 && deviations == old(deviations) + if ok then 0 else 1
      ensures flagged == old(flagged) + if ok then multiset{h} else multiset{}
    {
      ok := *;
      calls := calls + 1;
      if ok {
        flagged := flagged + multiset{h};
      }
      Note(ok);
    }

    method EffectiveUser() returns (uid: int)
      modifies this`calls, this`deviations
      ensures calls == old(calls) + 1 && deviations == old(deviations) + if uid == truth.owner then 0 else 1
    {
      uid := *;
      calls := calls + 1;
      Note(uid == truth.owner);
    }

    method Fstat(subject: nat, h: Handle) returns (r: Option<Stat>)
      requires h in open
      modifies this`calls, this`deviations, this`reports
      ensures calls == old(calls) + 1
      ensures reports == old(reports) + (if r.Some? then [(subject, r)] else [])
      ensures deviations == old(deviations) + if r == truth.StatOf(subject) then 0 else 1
    {
      r := *;
      calls := calls + 1;
      Note(r == truth.StatOf(subject));
      if r.Some? {
        reports := reports + [(subject, r)];
      }
    }

    method Fstatat(subject: nat) returns (r: Lookup)
      modifies this`calls, this`deviations, this`reports
      ensures calls == old(calls) + 1
      ensures reports == old(reports) + Told(subject, r)
      ensures deviations == old(deviations) + if r == truth.Named(subject) then 0 else 1
    {
      r := *;
      calls := calls + 1;
      Note(r == truth.Named(subject));
      reports := reports + Told(subject, r);
    }

    method Openat(subject: nat) returns (h: Option<Handle>)
      requires Valid()
      modifies this`next, this`open, this`calls, this`deviations, this`contents
      ensures Valid() && calls == old(calls) + 1 && next >= old(next)
      ensures h.Some? ==>
          && h.value == old(next) && next > h.value && open == old(open) + {h.value}
          && contents == old(contents)[h.value := (subject, [])]
      ensures h.None? ==> open == old(open) && contents == old(contents)
      ensures deviations == old(deviations) + if h.Some? then 0 else 1
    {
      h := Duplicate();
      if h.Some? {
        contents := contents[h.value := (subject, [])];
      }
    }

    /** At most what was asked for; a read right behind what was read so far extends it. */
    method Pread(h: Handle, count: nat, offset: nat) returns (r: Io)
      requires h in open && h in contents && count > 0
      modifies this`calls, this`deviations, this`returned, this`contents, this`ended
      ensures calls == old(calls) + 1
      ensures returned == old(returned) + (if r.Returned? then |r.bytes| else 0)
      ensures r.Returned? ==> |r.bytes| <= count
      ensures contents.Keys == old(contents).Keys
      ensures forall k | k in contents && k != h :: contents[k] == old(contents)[k]
      ensures contents[h] ==
          if r.Returned? && offset == |old(contents)[h].1| then (old(contents)[h].0, old(contents)[h].1 + r.bytes)
          else old(contents)[h]
      ensures ended ==
          if r == Returned([]) && offset == |old(contents)[h].1| then old(ended) + {h} else old(ended)
      ensures deviations == old(deviations)
          + if r == Returned(truth.Slice(old(contents)[h].0, offset, count)) then 0 else 1
    {
      r := *;
      calls := calls + 1;
      if r.Returned? && |r.bytes| > count {
        r := Returned(r.bytes[..count]);
      }
      Note(r == Returned(truth.Slice(contents[h].0, offset, count)));
      if r.Returned? {
        returned := returned + |r.bytes|;
        if offset == |contents[h].1| {
          ended := if r.bytes == [] then ended + {h} else ended;
          contents := contents[h := (contents[h].0, contents[h].1 + r.bytes)];
        }
      }
    }

    /** Whatever it reports, the handle is gone. */
    method Close(h: Handle) returns (ok: bool)
      requires Valid() && h in open
      modifies this`open, this`closes, this`closeFailures, this`deviations
      ensures Valid() && open == old(open) - {h} && closes == old(closes) + 1
      ensures closeFailures == old(closeFailures) + (if ok then 0 else 1)
      ensures deviations == old(deviations) + if ok then 0 else 1
    {
      ok := *;
      Note(ok);
      open, closes := open - {h}, closes + 1;
      if !ok {
        closeFailures := closeFailures + 1;
      }
    }
  }

  // ---- Results ----

  datatype Subject = NoSubject | Record(index: nat) | StateDirectory

  datatype Reason =
    | NoReason
    | InvalidStateDirectoryDescriptor
    | UnsafeStateDirectory
    | StateDirectoryChanged
    | UnsafeRecord
    | RecordChanged
    | RecordIdentityAlias
    | ReadBudgetExceeded
    | ProofBudgetExceeded
    | CleanupFailed

  datatype Failure = Failure(reason: Reason, subject: Subject) {
    predicate Set() {
      reason != NoReason
    }
  }

  /** A record of the first pass keeps its descriptor open. */
  datatype Kept = Kept(observed: Observation, held: Option<Handle>)

  datatype Result = Captured(fields: seq<Option<Bytes>>) | FailedClosed(reason: Reason, subject: Subject)

  // ---- What a run may spend ----

  ghost function PreadsUpTo(i: nat): nat
    requires i <= RECORDS
  {
    if i == 0 then 0 else PreadsUpTo(i - 1) + MaximumPreads(i - 1)
  }

  ghost function BytesUpTo(i: nat): nat
    requires i <= RECORDS
  {
    if i == 0 then 0 else BytesUpTo(i - 1) + MaximumBytes(i - 1)
  }

  /** Before observation `i` of a pass, with `passes` whole passes behind it: five calls of
      set-up, two root guards and six calls beside the reads per observation, and one guard
      between the passes. */
  ghost function CallsBefore(passes: nat, i: nat): nat
    requires i <= RECORDS
  {
    5 + passes * (PreadsUpTo(RECORDS) + 8 * RECORDS + 1) + PreadsUpTo(i) + 8 * i
  }

  /** The budgets of the header: 11637 calls, 41976320 bytes and one more. */
  lemma BudgetsAddUp()
    ensures PreadsUpTo(RECORDS) == 5770 && BytesUpTo(RECORDS) == 20988160
    ensures MaximumPreads(0) == 130 && MaximumPreads(1) == 1153 && MaximumPreads(4) == 2181
    ensures CallsBefore(1, RECORDS) + 2 * RECORDS + 1 == 11637 <= PROOF_ATTEMPTS
    ensures 2 * BytesUpTo(RECORDS) + 1 == MAXIMUM_RETURNED_BYTES
  {
    assert MaximumPreads(2) == 1153 && MaximumPreads(3) == 1153;
    assert PreadsUpTo(1) == 130 && PreadsUpTo(2) == 1283 && PreadsUpTo(3) == 2436 && PreadsUpTo(4) == 3589;
    assert BytesUpTo(1) == 256 && BytesUpTo(2) == 4194560 && BytesUpTo(3) == 8388864 && BytesUpTo(4) == 12583168;
  }

  class Observer {
    const kernel: Kernel
    var proofRemaining: nat
    var proofExceeded: bool
    var readRemaining: nat
    var returnedExceeded: bool
    var perFileExceeded: bool
    var cleanupRemaining: nat
    var cleanupExceeded: bool
    var failure: Failure
    var cleanupFailure: Failure
    /** What the last read came to. */
    ghost var lastRead: Io

    ghost predicate Valid()
      reads this, kernel
    {
      && kernel.Valid()
      && proofRemaining + kernel.calls == PROOF_ATTEMPTS
      && (proofExceeded ==> proofRemaining == 0)
      && (!returnedExceeded ==> readRemaining + kernel.returned == MAXIMUM_RETURNED_BYTES)
      && (!cleanupExceeded ==> cleanupRemaining + kernel.closes == CLEANUP_RESERVE)
      && (cleanupExceeded ==> kernel.closes > CLEANUP_RESERVE)
      && (cleanupFailure.Set() <==> kernel.closeFailures > 0)
    }

    constructor (kernel: Kernel)
      requires kernel.Valid() && kernel.calls == 0 && kernel.returned == 0 && kernel.closes == 0
      requires kernel.closeFailures == 0
      ensures Valid() && this.kernel == kernel
      ensures !proofExceeded && !returnedExceeded && !perFileExceeded && !cleanupExceeded
      ensures !failure.Set() && !cleanupFailure.Set()
    {
      this.kernel := kernel;
      proofRemaining, proofExceeded := PROOF_ATTEMPTS, false;
      readRemaining, returnedExceeded, perFileExceeded := MAXIMUM_RETURNED_BYTES, false, false;
      cleanupRemaining, cleanupExceeded := CLEANUP_RESERVE, false;
      failure, cleanupFailure := Failure(NoReason, NoSubject), Failure(NoReason, NoSubject);
    }

    /** The budget is spent, or an answer was not what the environment is. */
    ghost predicate Disturbed()
      reads this`proofExceeded, kernel`deviations
    {
      proofExceeded || kernel.deviations > 0 || !kernel.truth.Consistent()
    }

    /** Why something may go wrong: a disturbance, or what the failure says of the environment. */
    ghost predicate Excused()
      reads this`proofExceeded, this`failure, kernel`deviations
    {
      Disturbed() || kernel.truth.Blamed(failure.reason, failure.subject)
    }

    /** Reasons stay. */
    twostate predicate Later()
      reads this`proofExceeded, kernel`deviations
    {
      old(kernel.deviations) <= kernel.deviations && (old(proofExceeded) ==> proofExceeded)
    }

    /** Nothing but the proof budget, the call counter and the reports changed. */
    twostate predicate OnlyAsked(most: nat)
      reads this, kernel
    {
      && old(kernel.calls) <= kernel.calls <= old(kernel.calls) + most
      && Later()
      && unchanged(this`readRemaining, this`returnedExceeded, this`perFileExceeded, this`cleanupRemaining,
                   this`cleanupExceeded, this`failure, this`cleanupFailure)
      && unchanged(kernel`next, kernel`open, kernel`returned, kernel`closes, kernel`closeFailures,
                   kernel`contents, kernel`ended)
    }

    /** The calling proof syscall may go ahead; otherwise the budget is spent. */
    method ProofAttempt() returns (ok: bool)
      modifies this`proofRemaining, this`proofExceeded
      ensures ok <==> old(proofRemaining) > 0
      ensures ok ==> proofRemaining == old(proofRemaining) - 1 && proofExceeded == old(proofExceeded)
      ensures !ok ==> proofRemaining == 0 && proofExceeded
    {
      ok := proofRemaining > 0;
      if ok {
        proofRemaining := proofRemaining - 1;
      } else {
        proofExceeded := true;
      }
    }

    method Choose(reason: Reason, subject: Subject)
      modifies this`failure
      ensures failure == if old(failure).Set() then old(failure) else Failure(reason, subject)
    {
      if !failure.Set() {
        failure := Failure(reason, subject);
      }
    }

    function BudgetReason(): (r: Reason)
      reads this
      ensures r in {ProofBudgetExceeded, ReadBudgetExceeded, UnsafeRecord}
      ensures r == ProofBudgetExceeded <==> proofExceeded
      ensures r == ReadBudgetExceeded <==> !proofExceeded && (returnedExceeded || perFileExceeded)
    {
      if proofExceeded then ProofBudgetExceeded
      else if returnedExceeded || perFileExceeded then ReadBudgetExceeded
      else UnsafeRecord
    }

    method Fstat(subject: nat, h: Handle) returns (r: Option<Stat>)
      requires Valid() && h in kernel.open
      modifies this`proofRemaining, this`proofExceeded, kernel`calls, kernel`deviations, kernel`reports
      ensures Valid() && OnlyAsked(1)
      ensures kernel.reports == old(kernel.reports) + (if r.Some? then [(subject, r)] else [])
      ensures Disturbed() || r == kernel.truth.StatOf(subject)
    {
      r := None;
      var attempt := ProofAttempt();
      if attempt {
        r := kernel.Fstat(subject, h);
      }
    }

    method Fstatat(subject: nat) returns (r: Lookup)
      requires Valid()
      modifies this`proofRemaining, this`proofExceeded, kernel`calls, kernel`deviations, kernel`reports
      ensures Valid() && OnlyAsked(1)
      ensures kernel.reports == old(kernel.reports) + Told(subject, r)
      ensures Disturbed() || r == kernel.truth.Named(subject)
    {
      r := LookupFailed;
      var attempt := ProofAttempt();
      if attempt {
        r := kernel.Fstatat(subject);
      }
    }

    method Flags(h: Handle) returns (ok: bool)
      requires Valid() && h in kernel.open
      modifies this`proofRemaining, this`proofExceeded, kernel`calls, kernel`deviations, kernel`flagged
      ensures Valid() && OnlyAsked(1) && (ok || Disturbed())
      ensures kernel.flagged == old(kernel.flagged) + if ok then multiset{h} else multiset{}
    {
      ok := ProofAttempt();
      if ok {
        ok := kernel.Flags(h);
      }
    }

    method RootGuard(root: Handle, baseline: Stat) returns (stable: bool)
      requires Valid() && root in kernel.open
      modifies this`proofRemaining, this`proofExceeded, kernel`calls, kernel`deviations, kernel`reports
      ensures Valid() && OnlyAsked(1)
      ensures stable ==> kernel.reports == old(kernel.reports) + [(ROOT, Some(baseline))]
      ensures stable || Disturbed() || baseline != kernel.truth.root
    {
      var current := Fstat(ROOT, root);
      stable := current == Some(baseline);
    }

    method OpenRecord(index: nat) returns (h: Option<Handle>)
      requires Valid()
      modifies this`proofRemaining, this`proofExceeded,
        kernel`calls, kernel`deviations, kernel`next, kernel`open, kernel`contents
      ensures Valid() && old(kernel.calls) <= kernel.calls <= old(kernel.calls) + 1 && kernel.next >= old(kernel.next)
      ensures h.Some? ==>
          && old(kernel.next) <= h.value < kernel.next && kernel.open == old(kernel.open) + {h.value}
          && kernel.contents == old(kernel.contents)[h.value := (index, [])]
      ensures h.None? ==> kernel.open == old(kernel.open) && kernel.contents == old(kernel.contents)
      ensures Later() && (h.Some? || Disturbed())
    {
      h := None;
      var attempt := ProofAttempt();
      if attempt {
        h := kernel.Openat(index);
      }
    }

    /** The handle is given up before the one and only attempt to close it. */
    method CloseOnce(h: Option<Handle>, subject: Subject) returns (ok: bool)
      requires Valid() && (h.Some? ==> h.value in kernel.open)
      modifies this`cleanupRemaining, this`cleanupExceeded, this`cleanupFailure,
        kernel`open, kernel`closes, kernel`closeFailures, kernel`deviations
      ensures Valid()
      ensures h.None? ==> ok && kernel.open == old(kernel.open) && kernel.closes == old(kernel.closes)
      ensures h.Some? ==> kernel.open == old(kernel.open) - {h.value} && kernel.closes == old(kernel.closes) + 1
      ensures kernel.closeFailures == old(kernel.closeFailures) + (if ok then 0 else 1)
      ensures cleanupFailure ==
          if ok || old(cleanupFailure).Set() then old(cleanupFailure) else Failure(CleanupFailed, subject)
      ensures Later() && (ok || Disturbed())
    {
      if h.None? {
        return true;
      }
      if cleanupRemaining == 0 {
        cleanupExceeded := true;
      } else {
        cleanupRemaining := cleanupRemaining - 1;
      }
      ok := kernel.Close(h.value);
      if !ok && !cleanupFailure.Set() {
        cleanupFailure := Failure(CleanupFailed, subject);
      }
    }

    /** Only reading happened: of at most `bytes` bytes in at most `most` calls. */
    twostate predicate OnlyRead(most: nat)
      reads this, kernel
    {
      && old(kernel.calls) <= kernel.calls <= old(kernel.calls) + most
      && Later()
      && unchanged(this`cleanupRemaining, this`cleanupExceeded, this`failure, this`cleanupFailure)
      && unchanged(kernel`next, kernel`open, kernel`closes, kernel`closeFailures, kernel`reports)
      && kernel.contents.Keys == old(kernel.contents).Keys && old(kernel.ended) <= kernel.ended
    }

    method BoundedPread(h: Handle, count: nat, offset: nat) returns (r: Io)
      requires Valid() && h in kernel.open && h in kernel.contents && count > 0
      modifies this`proofRemaining, this`proofExceeded, this`readRemaining, this`returnedExceeded,
        kernel`calls, kernel`deviations, kernel`returned, kernel`contents, kernel`ended
      ensures Valid() && OnlyRead(1) && perFileExceeded == old(perFileExceeded)
      ensures kernel.returned <= old(kernel.returned) + count
      ensures r.Returned? ==>
          && |r.bytes| <= count && kernel.returned == old(kernel.returned) + |r.bytes|
          && returnedExceeded == old(returnedExceeded)
      ensures r == Interrupted ==> kernel.returned == old(kernel.returned) && returnedExceeded == old(returnedExceeded)
      ensures old(kernel.returned) + count <= MAXIMUM_RETURNED_BYTES ==> returnedExceeded == old(returnedExceeded)
      ensures forall k | k in kernel.contents && k != h :: kernel.contents[k] == old(kernel.contents)[k]
      ensures r == Interrupted ==> kernel.contents[h] == old(kernel.contents)[h]
      ensures r.Returned? && offset == |old(kernel.contents)[h].1| ==>
          kernel.contents[h] == (old(kernel.contents)[h].0, old(kernel.contents)[h].1 + r.bytes)
      ensures r == Returned([]) && offset == |old(kernel.contents)[h].1| ==> h in kernel.ended
      ensures (old(kernel.returned) + count <= MAXIMUM_RETURNED_BYTES && !old(returnedExceeded)) ==>
          (Disturbed() || r == Returned(kernel.truth.Slice(old(kernel.contents)[h].0, offset, count)))
    {
      hide Environment.Safe, Environment.Slice;
      r := Refused;
      var attempt := ProofAttempt();
      if attempt {
        r := kernel.Pread(h, count, offset);
        if r.Returned? {
          if |r.bytes| > readRemaining {
            returnedExceeded := true;
            r := Refused;
          } else {
            readRemaining := readRemaining - |r.bytes|;
          }
        }
      }
    }

    function Requested(left: nat): nat {
      if left < READ_BUFFER then left else READ_BUFFER
    }

    /** One turn of the read loop: what comes next, a buffer at most. */
    method ReadNext(h: Handle, index: nat, size: nat, bytes: Bytes) returns (r: Io)
      requires Valid() && index < RECORDS && |bytes| < size && !returnedExceeded
      requires h in kernel.open && h in kernel.contents && kernel.contents[h] == (index, bytes)
      requires kernel.returned + (size - |bytes|) <= MAXIMUM_RETURNED_BYTES
      modifies this`proofRemaining, this`proofExceeded, this`readRemaining, this`returnedExceeded, this`lastRead,
        kernel`calls, kernel`deviations, kernel`returned, kernel`contents, kernel`ended
      ensures Valid() && OnlyRead(1) && !returnedExceeded && lastRead == r
      ensures kernel.returned <= old(kernel.returned) + (size - |bytes|)
      ensures forall k | k in kernel.contents && k != h :: kernel.contents[k] == old(kernel.contents)[k]
      ensures r.Returned? ==>
          && |bytes| + |r.bytes| <= size && kernel.returned == old(kernel.returned) + |r.bytes|
          && kernel.contents[h] == (index, bytes + r.bytes)
      ensures r == Interrupted ==> kernel.returned == old(kernel.returned) && kernel.contents[h] == (index, bytes)
      ensures Disturbed() || r == Returned(kernel.truth.Slice(index, |bytes|, Requested(size - |bytes|)))
    {
      hide Environment.Safe, Environment.Slice, Environment.Consistent;
      r := BoundedPread(h, Requested(size - |bytes|), |bytes|);
      lastRead := r;
    }

    /** The read loop: exactly `size` bytes from the start, whatever was short or interrupted. */
    method ReadAll(h: Handle, index: nat, size: nat) returns (ok: bool, bytes: Bytes, attempts: nat)
      requires Valid() && index < RECORDS && size <= MaximumBytes(index)
      requires h in kernel.open && h in kernel.contents && kernel.contents[h] == (index, [])
      requires !returnedExceeded && kernel.returned + size <= MAXIMUM_RETURNED_BYTES
      modifies this`proofRemaining, this`proofExceeded, this`readRemaining, this`returnedExceeded, this`perFileExceeded,
        this`lastRead,
        kernel`calls, kernel`deviations, kernel`returned, kernel`contents, kernel`ended
      ensures Valid() && OnlyRead(attempts) && !returnedExceeded
      ensures attempts <= MaximumPreads(index)
      ensures perFileExceeded == (old(perFileExceeded) || (!ok && lastRead !in {Refused, Returned([])}))
      ensures kernel.returned <= old(kernel.returned) + size
      ensures forall k | k in kernel.contents && k != h :: kernel.contents[k] == old(kernel.contents)[k]
      ensures ok ==> |bytes| == size && kernel.contents[h] == (index, bytes)
      ensures Disturbed() || !kernel.truth.Long(index, size)
              || (ok && bytes == kernel.truth.Slice(index, 0, size) && attempts < MaximumPreads(index))
    {
      hide Environment.Safe, MaximumPreads, MaximumBytes;
      bytes, attempts, ok := [], 0, true;
      while |bytes| < size
        invariant Valid() && !returnedExceeded && OnlyRead(attempts) && attempts <= MaximumPreads(index)
        invariant ok && |bytes| <= size && h in kernel.contents && kernel.contents[h] == (index, bytes)
        invariant perFileExceeded == old(perFileExceeded)
        invariant attempts > 0 ==> lastRead !in {Refused, Returned([])}
        invariant kernel.returned == old(kernel.returned) + |bytes|
        invariant forall k | k in kernel.contents && k != h :: kernel.contents[k] == old(kernel.contents)[k]
        invariant Disturbed() || !kernel.truth.Long(index, size)
                  || (bytes == kernel.truth.Slice(index, 0, |bytes|) && InStep(attempts, |bytes|, size))
        decreases MaximumPreads(index) - attempts
      {
        StepIsLeft(index, attempts, |bytes|, size);
        if attempts == MaximumPreads(index) {
          SomeReads(index);
          perFileExceeded := true;
          return false, bytes, attempts;
        }
        attempts := attempts + 1;
        var r := ReadNext(h, index, size, bytes);
        match r {
          case Interrupted =>
          case Refused => return false, bytes, attempts;
          case Returned(chunk) =>
            if chunk == [] {
              return false, bytes, attempts;
            }
            SlicesJoin(kernel.truth, index, |bytes|, Requested(size - |bytes|), size);
            bytes := bytes + chunk;
        }
      }
      StepIsLeft(index, attempts, |bytes|, size);
    }

    /** The growth probe: a one-byte read right behind the record must return nothing. */
    method ProbeEnd(h: Handle, index: nat, size: nat, before: nat) returns (ok: bool, attempts: nat)
      requires Valid() && index < RECORDS && before <= MaximumPreads(index)
      requires h in kernel.open && h in kernel.contents && |kernel.contents[h].1| == size
      requires !returnedExceeded && kernel.returned + 1 <= MAXIMUM_RETURNED_BYTES
      modifies this`proofRemaining, this`proofExceeded, this`readRemaining, this`returnedExceeded, this`perFileExceeded,
        this`lastRead,
        kernel`calls, kernel`deviations, kernel`returned, kernel`contents, kernel`ended
      ensures Valid() && before <= attempts <= MaximumPreads(index) && OnlyRead(attempts - before) && !returnedExceeded
      ensures kernel.returned <= old(kernel.returned) + (if ok then 0 else 1)
      ensures forall k | k in kernel.contents && k != h :: kernel.contents[k] == old(kernel.contents)[k]
      ensures perFileExceeded ==
          (old(perFileExceeded) || (!ok && (before == MaximumPreads(index) || lastRead == Interrupted)))
      ensures ok ==> kernel.contents == old(kernel.contents) && h in kernel.ended
      ensures ok || Disturbed() || before == MaximumPreads(index)
              || !kernel.truth.Long(old(kernel.contents)[h].0, size)
    {
      hide Environment.Safe, MaximumPreads;
      attempts := before;
      while attempts < MaximumPreads(index)
        invariant Valid() && !returnedExceeded && before <= attempts <= MaximumPreads(index)
        invariant OnlyRead(attempts - before) && perFileExceeded == old(perFileExceeded)
        invariant attempts > before ==> lastRead == Interrupted
        invariant kernel.contents == old(kernel.contents) && kernel.returned == old(kernel.returned)
        invariant attempts == before || Disturbed() || !kernel.truth.Long(kernel.contents[h].0, size)
      {
        NothingBehind(kernel.truth, kernel.contents[h].0, size);
        attempts := attempts + 1;
        var r := BoundedPread(h, 1, size);
        lastRead := r;
        if r != Interrupted {
          ok := r == Returned([]);
          assert old(kernel.contents)[h].1 + [] == old(kernel.contents)[h].1;
          return;
        }
      }
      perFileExceeded := true;
      ok := false;
    }

    /** What one whole observation may use up. */
    twostate predicate Observed(index: nat, ok: bool)
      requires index < RECORDS
      reads this, kernel
    {
      && old(kernel.calls) <= kernel.calls <= old(kernel.calls) + 6 + MaximumPreads(index)
      && kernel.returned <= old(kernel.returned) + MaximumBytes(index) + (if ok then 0 else 1)
      && kernel.closes <= old(kernel.closes) + 1
      && old(kernel.next) <= kernel.next && old(kernel.ended) <= kernel.ended && Later()
      && !returnedExceeded && cleanupFailure.Set() == (kernel.closeFailures > 0)
    }

    /** The record was read through `h`, and every handle known before reads as it did. */
    twostate predicate ReadThrough(h: Handle, index: nat, bytes: Bytes)
      reads kernel
    {
      && old(kernel.next) <= h && h in kernel.ended
      && h in kernel.contents && kernel.contents[h] == (index, bytes)
      && kernel.contents.Keys == old(kernel.contents).Keys + {h}
      && forall k | k in old(kernel.contents) :: kernel.contents[k] == old(kernel.contents)[k]
    }

    twostate predicate KeptThrough(h: Handle, index: nat, bytes: Bytes, held: Option<Handle>, first: bool)
      reads kernel
    {
      && ReadThrough(h, index, bytes)
      && held == (if first then Some(h) else None)
      && kernel.open == old(kernel.open) + (if first then {h} else {})
    }

    /** Budgets with room for one more observation and its clean-up. */
    ghost predicate Roomy(index: nat)
      requires index < RECORDS
      reads this, kernel
    {
      && Valid()
      && !failure.Set() && !cleanupFailure.Set() && !returnedExceeded && !cleanupExceeded
      && kernel.returned + MaximumBytes(index) + 1 <= MAXIMUM_RETURNED_BYTES
      && kernel.closes < CLEANUP_RESERVE
    }

    /** Everything asked of an opened record: flags, stat, contents, end, stat, name. */
    method ProveRecord(root: Stat, index: nat, named: Stat, h: Handle) returns (stable: bool, bytes: Bytes)
      requires index < RECORDS && Roomy(index) && SafeRecord(named, root, MaximumBytes(index))
      requires h in kernel.open && h in kernel.contents && kernel.contents[h] == (index, [])
      modifies this`proofRemaining, this`proofExceeded, this`readRemaining, this`returnedExceeded, this`perFileExceeded,
        this`lastRead,
        kernel`calls, kernel`deviations, kernel`returned, kernel`contents, kernel`ended, kernel`reports, kernel`flagged
      ensures Valid() && !returnedExceeded
      ensures old(kernel.calls) <= kernel.calls <= old(kernel.calls) + 4 + MaximumPreads(index)
      ensures kernel.returned <= old(kernel.returned) + MaximumBytes(index) + (if stable then 0 else 1)
      ensures old(kernel.ended) <= kernel.ended && kernel.contents.Keys == old(kernel.contents).Keys
      ensures forall k | k in kernel.contents && k != h :: kernel.contents[k] == old(kernel.contents)[k]
      ensures stable ==> kernel.flagged == old(kernel.flagged) + multiset{h} && perFileExceeded == old(perFileExceeded)
      ensures stable ==>
          && kernel.reports == old(kernel.reports) + Through(index, named)
          && |bytes| == named.size
          && kernel.contents[h] == (index, bytes) && h in kernel.ended
      ensures Later()
      ensures Disturbed() || !kernel.truth.Is(index, named) || (stable && bytes == kernel.truth.At(index).value.1)
    {
      hide MaximumPreads, MaximumBytes, SafeRecord, Environment.Consistent, Environment.Slice;
      SafeSize(named, root, MaximumBytes(index));
      WholeSlice(kernel.truth, index, named.size);
      stable, bytes := false, [];
      var flagged := Flags(h);
      if !flagged {
        return;
      }
      var seen := Fstat(index, h);
      var roomFor: bool := *;
      kernel.Note(roomFor);
      if seen != Some(named) || !roomFor {
        return;
      }
      var whole;
      whole, bytes := ReadWhole(h, index, named.size);
      if whole {
        stable := StillNamed(index, named, h);
      }
    }

    method ReadWhole(h: Handle, index: nat, size: nat) returns (ok: bool, bytes: Bytes)
      requires Valid() && index < RECORDS && size <= MaximumBytes(index)
      requires h in kernel.open && h in kernel.contents && kernel.contents[h] == (index, [])
      requires !returnedExceeded && kernel.returned + size + 1 <= MAXIMUM_RETURNED_BYTES
      modifies this`proofRemaining, this`proofExceeded, this`readRemaining, this`returnedExceeded, this`perFileExceeded,
        this`lastRead,
        kernel`calls, kernel`deviations, kernel`returned, kernel`contents, kernel`ended
      ensures Valid() && OnlyRead(MaximumPreads(index)) && !returnedExceeded
      ensures kernel.returned <= old(kernel.returned) + size + (if ok then 0 else 1)
      ensures forall k | k in kernel.contents && k != h :: kernel.contents[k] == old(kernel.contents)[k]
      ensures ok ==> perFileExceeded == old(perFileExceeded)
      ensures ok ==> |bytes| == size && kernel.contents[h] == (index, bytes) && h in kernel.ended
      ensures Disturbed() || !kernel.truth.Long(index, size) || (ok && bytes == kernel.truth.Slice(index, 0, size))
    {
      hide MaximumPreads, MaximumBytes, Environment.Safe, Environment.Slice;
      var attempts;
      ok, bytes, attempts := ReadAll(h, index, size);
      if ok {
        ok, attempts := ProbeEnd(h, index, size, attempts);
      }
    }

    method StillNamed(index: nat, named: Stat, h: Handle) returns (ok: bool)
      requires Valid() && h in kernel.open
      modifies this`proofRemaining, this`proofExceeded, kernel`calls, kernel`deviations, kernel`reports
      ensures Valid() && OnlyAsked(2)
      ensures ok ==> kernel.reports == old(kernel.reports) + [(index, Some(named)), (index, Some(named))]
      ensures ok || Disturbed() || kernel.truth.StatOf(index) != Some(named) || index >= RECORDS
    {
      hide Environment.Safe;
      var after := Fstat(index, h);
      ok := after == Some(named);
      if ok {
        var finalNamed := Fstatat(index);
        ok := finalNamed == Found(named);
      }
    }

    method CaptureOpened(root: Stat, index: nat, first: bool, named: Stat, h: Handle) returns (record: Option<Kept>)
      requires index < RECORDS && Roomy(index) && SafeRecord(named, root, MaximumBytes(index))
      requires h in kernel.open && h in kernel.contents && kernel.contents[h] == (index, [])
      modifies this`proofRemaining, this`proofExceeded, this`readRemaining, this`returnedExceeded, this`perFileExceeded,
        this`lastRead,
        this`cleanupRemaining, this`cleanupExceeded, this`cleanupFailure, this`failure,
        kernel`calls, kernel`deviations, kernel`returned, kernel`contents, kernel`ended, kernel`reports, kernel`flagged,
        kernel`open, kernel`closes, kernel`closeFailures
      ensures Valid() && !returnedExceeded && !cleanupExceeded
      ensures old(kernel.calls) <= kernel.calls <= old(kernel.calls) + 4 + MaximumPreads(index)
      ensures kernel.returned <= old(kernel.returned) + MaximumBytes(index) + (if record.Some? then 0 else 1)
      ensures kernel.closes <= old(kernel.closes) + (if record.Some? && first then 0 else 1)
      ensures old(kernel.ended) <= kernel.ended && kernel.contents.Keys == old(kernel.contents).Keys
      ensures forall k | k in kernel.contents && k != h :: kernel.contents[k] == old(kernel.contents)[k]
      ensures record.None? ==> failure.Set() && kernel.open == old(kernel.open) - {h} && Explained()
      ensures record.Some? ==> !failure.Set() && !cleanupFailure.Set()
      ensures record.Some? ==> h in kernel.flagged
      ensures record.Some? ==>
          && kernel.reports == old(kernel.reports) + Through(index, named)
          && record.value.observed.Present? && record.value.observed.metadata == named
          && |record.value.observed.bytes| == named.size
          && kernel.contents[h] == (index, record.value.observed.bytes) && h in kernel.ended
          && record.value.held == (if first then Some(h) else None)
          && kernel.open == (if first then old(kernel.open) else old(kernel.open) - {h})
      ensures Later()
      ensures Disturbed() || !kernel.truth.Is(index, named)
              || (record.Some? && record.value.observed == kernel.truth.Observed(index))
    {
      hide Environment.Safe;
      var stable, bytes := ProveRecord(root, index, named, h);
      if first && stable {
        return Some(Kept(Present(bytes, named), Some(h)));
      }
      var closed := CloseOnce(Some(h), Record(index));
      if !closed {
        failure := cleanupFailure;
        return None;
      }
      if !stable {
        Choose(BudgetReason(), Record(index));
        return None;
      }
      record := Some(Kept(Present(bytes, named), None));
    }

    /** Why an observation failed, clean-up first. */
    ghost predicate Explained()
      reads this
    {
      if cleanupFailure.Set() then failure == cleanupFailure && failure.reason == CleanupFailed
      else
        && failure.reason in {ProofBudgetExceeded, ReadBudgetExceeded, UnsafeRecord}
        && (failure.reason == ProofBudgetExceeded ==> proofExceeded)
        && (failure.reason == ReadBudgetExceeded ==> perFileExceeded)
    }

    method CaptureOne(root: Stat, index: nat, first: bool) returns (record: Option<Kept>)
      requires index < RECORDS && Roomy(index)
      modifies this, kernel
      ensures Valid() && Observed(index, record.Some?)
      ensures record.Some? && first ==> kernel.closes <= old(kernel.closes)
      ensures record.None? ==> failure.Set() && kernel.open == old(kernel.open) && Explained()
      ensures record.Some? ==> !failure.Set() && !cleanupFailure.Set()
      ensures !cleanupExceeded
      ensures record.Some? ==> kernel.reports == old(kernel.reports) + Looks(index, record.value.observed)
      ensures record.Some? && record.value.observed.Missing? ==>
          && record.value.held.None? && kernel.open == old(kernel.open)
          && kernel.reports == old(kernel.reports) + [(index, None), (index, None)]
          && kernel.contents == old(kernel.contents)
      ensures record.Some? && record.value.observed.Present? ==>
          var o := record.value.observed;
          && SafeRecord(o.metadata, root, MaximumBytes(index)) && |o.bytes| == o.metadata.size
          && exists h :: KeptThrough(h, index, o.bytes, record.value.held, first)
      ensures Disturbed() || root != kernel.truth.root
              || (if record.Some? then record.value.observed == kernel.truth.Observed(index)
                  else kernel.truth.Blamed(failure.reason, failure.subject))
    {
      hide MaximumPreads, MaximumBytes, SafeRecord, BudgetReason, Environment.Safe;
      record := None;
      var named := Fstatat(index);
      if named == LookupFailed {
        Choose(if proofExceeded then ProofBudgetExceeded else UnsafeRecord, Record(index));
        return;
      }
      if named == NoEntry {
        var again := Fstatat(index);
        if again != NoEntry {
          Choose(BudgetReason(), Record(index));
          return;
        }
        return Some(Kept(Missing, None));
      }
      if !SafeRecord(named.stat, root, MaximumBytes(index)) {
        Choose(UnsafeRecord, Record(index));
        return;
      }
      SafeSize(named.stat, root, MaximumBytes(index));
      label Looked:
      record := CaptureNamed(root, index, first, named.stat);
      if record.Some? {
        ghost var h :| KeptThrough@Looked(h, index, record.value.observed.bytes, record.value.held, first);
        assert KeptThrough(h, index, record.value.observed.bytes, record.value.held, first);
      }
    }

    method CaptureNamed(root: Stat, index: nat, first: bool, named: Stat) returns (record: Option<Kept>)
      requires index < RECORDS && Roomy(index) && SafeRecord(named, root, MaximumBytes(index))
      modifies this, kernel
      ensures Valid() && !returnedExceeded && !cleanupExceeded
      ensures old(kernel.calls) <= kernel.calls <= old(kernel.calls) + 5 + MaximumPreads(index)
      ensures kernel.returned <= old(kernel.returned) + MaximumBytes(index) + (if record.Some? then 0 else 1)
      ensures kernel.closes <= old(kernel.closes) + (if record.Some? && first then 0 else 1)
      ensures old(kernel.next) <= kernel.next && old(kernel.ended) <= kernel.ended
      ensures record.None? ==> failure.Set() && kernel.open == old(kernel.open) && Explained()
      ensures record.Some? ==>
          && !failure.Set() && !cleanupFailure.Set()
          && record.value.observed.Present? && record.value.observed.metadata == named
          && |record.value.observed.bytes| == named.size
          && kernel.reports == old(kernel.reports) + Through(index, named)
          && exists h :: KeptThrough(h, index, record.value.observed.bytes, record.value.held, first)
      ensures Later()
      ensures Disturbed() || !kernel.truth.Is(index, named)
              || (record.Some? && record.value.observed == kernel.truth.Observed(index))
    {
      hide MaximumPreads, MaximumBytes, SafeRecord, BudgetReason, Environment.Safe;
      var h := OpenRecord(index);
      if h.None? {
        Choose(BudgetReason(), Record(index));
        return None;
      }
      record := CaptureOpened(root, index, first, named, h.value);
      assert record.Some? ==> KeptThrough(h.value, index, record.value.observed.bytes, record.value.held, first);
    }

    // ---- The passes ----

    /** Exactly the root and the descriptors of the first pass are open. */
    ghost predicate Holds(root: Handle, first: seq<Kept>)
      reads kernel
    {
      HeldOpen(kernel.open, root, first)
    }

    /** Everything the kernel ever reported agrees with what the first `n` records keep. */
    ghost predicate Matches(baseline: Stat, first: seq<Kept>, n: nat)
      requires n <= |first|
      reads kernel
    {
      Agrees(kernel.reports, kernel.contents, kernel.ended, baseline, first, n)
    }

    /** Nothing went wrong so far. */
    ghost predicate Clean()
      reads this, kernel
    {
      Valid() && !failure.Set() && !cleanupFailure.Set() && !returnedExceeded && !cleanupExceeded
    }

    /** What is kept is what the environment is, unless something is to blame. */
    ghost predicate Tracks(baseline: Stat, first: seq<Kept>, n: nat)
      requires n <= |first|
      reads this`proofExceeded, kernel`deviations
    {
      Disturbed() || (baseline == kernel.truth.root && SafeRoot(kernel.truth.root, kernel.truth.owner)
                      && forall i | 0 <= i < n :: first[i].observed == kernel.truth.Observed(i))
    }

    ghost predicate FirstPassed(root: Handle, baseline: Stat, first: seq<Kept>, n: nat)
      reads this, kernel
    {
      HasKept(root, baseline, first, n) && Distinct(first[..n])
    }

    /** All of it but the comparison of identities. */
    ghost predicate HasKept(root: Handle, baseline: Stat, first: seq<Kept>, n: nat)
      reads this, kernel
    {
      && Clean() && |first| == RECORDS && n <= RECORDS
      && Holds(root, first) && Matches(baseline, first, n) && Tracks(baseline, first, n)
      && (forall i | 0 <= i < RECORDS :: first[i].held.Some? <==> first[i].observed.Present?)
      && (forall i | 0 <= i < RECORDS && first[i].held.Some? ::
            first[i].held.value in kernel.contents && kernel.contents[first[i].held.value].0 == i)
      && (forall i | n <= i < RECORDS :: first[i] == Kept(Missing, None))
      && (forall i | 0 <= i < RECORDS && first[i].observed.Present? ::
            && SafeRecord(first[i].observed.metadata, baseline, MaximumBytes(i))
            && |first[i].observed.bytes| == first[i].observed.metadata.size)
    }

    ghost predicate Within(calls: nat, returned: nat, closes: nat)
      reads kernel
    {
      kernel.calls <= calls && kernel.returned <= returned && kernel.closes <= closes
    }

    /** The run has failed and only descriptors remain to be released. */
    ghost predicate Stopped(root: Handle, baseline: Stat, first: seq<Kept>)
      reads this, kernel
    {
      && Valid() && failure.Set() && Excused() && |first| == RECORDS && Holds(root, first)
      && Tracks(baseline, first, 0)
      && !returnedExceeded && !cleanupExceeded
      && (failure.reason == ProofBudgetExceeded ==> proofExceeded)
      && (cleanupFailure.Set() ==> cleanupFailure.reason == CleanupFailed)
      && (failure.reason == CleanupFailed <==> cleanupFailure.Set())
    }

    /** A root guard that explains itself. */
    method Guarded(root: Handle, baseline: Stat) returns (ok: bool)
      requires Valid() && root in kernel.open
      modifies this`proofRemaining, this`proofExceeded, this`failure, kernel`calls, kernel`deviations, kernel`reports
      ensures Valid() && kernel.calls <= old(kernel.calls) + 1
      ensures Later() && (ok || Disturbed() || baseline != kernel.truth.root)
      ensures ok ==> failure == old(failure) && kernel.reports == old(kernel.reports) + [(ROOT, Some(baseline))]
      ensures !ok ==> failure == (if old(failure).Set() then old(failure)
                                  else Failure(if proofExceeded then ProofBudgetExceeded else StateDirectoryChanged,
                                               StateDirectory))
    {
      ok := RootGuard(root, baseline);
      if !ok {
        Choose(if proofExceeded then ProofBudgetExceeded else StateDirectoryChanged, StateDirectory);
      }
    }

    method HasIdentityAlias(first: seq<Kept>, through: nat) returns (alias: bool)
      requires through < |first| && Distinct(first[..through])
      ensures !alias ==> Distinct(first[..through + 1])
      ensures alias ==> !Distinct(first[..through + 1])
    {
      alias := false;
      var candidate := first[through].observed;
      if candidate.Missing? {
        return;
      }
      for index := 0 to through
        invariant !alias
        invariant forall i | 0 <= i < index && first[i].observed.Present? ::
            !SameIdentity(first[i].observed.metadata, candidate.metadata)
      {
        var prior := first[index].observed;
        if prior.Present? && SameIdentity(prior.metadata, candidate.metadata) {
          assert first[..through + 1][index] == first[index] && first[..through + 1][through] == first[through];
          return true;
        }
      }
    }

    method ObserveFirst(root: Handle, baseline: Stat, first: seq<Kept>, index: nat) returns (ok: bool, next: seq<Kept>)
      requires index < RECORDS && FirstPassed(root, baseline, first, index)
      requires Within(CallsBefore(0, index), BytesUpTo(index), 0)
      modifies this, kernel
      ensures |next| == RECORDS
      ensures ok ==> FirstPassed(root, baseline, next, index + 1) && next[..index] == first[..index]
      ensures ok ==> kernel.reports == old(kernel.reports) + Around(baseline, Looks(index, next[index].observed))
      ensures ok ==> Within(CallsBefore(0, index + 1), BytesUpTo(index + 1), 0)
      ensures !ok ==> Stopped(root, baseline, next)
      ensures !ok ==> Within(CallsBefore(0, index + 1), BytesUpTo(index + 1) + 1, 1)
    {
      hide Looks, Around, MaximumPreads, MaximumBytes, SafeRecord, Distinct, Agrees, HeldOpen;
      next := first;
      ghost var reports := kernel.reports;
      BytesBound(index);
      ok := GuardedPass(root, baseline, first, index);
      if !ok {
        return;
      }
      ok, next := KeepFirst(root, baseline, first, index);
      if !ok {
        return;
      }
      ok := CheckAlias(root, baseline, next, index);
      if ok {
        ok := GuardedPass(root, baseline, next, index + 1);
        AroundJoins(reports, baseline, Looks(index, next[index].observed));
      }
    }

    method CheckAlias(root: Handle, baseline: Stat, next: seq<Kept>, index: nat) returns (ok: bool)
      requires index < RECORDS && HasKept(root, baseline, next, index + 1) && Distinct(next[..index])
      modifies this`failure
      ensures if ok then FirstPassed(root, baseline, next, index + 1) else Stopped(root, baseline, next)
    {
      hide SafeRecord, Distinct, Agrees, HeldOpen;
      var alias := HasIdentityAlias(next, index);
      if alias {
        if !Disturbed() {
          AliasIsBlamed(kernel.truth, next, index);
        }
        Choose(RecordIdentityAlias, Record(index));
      }
      ok := !alias;
    }

    /** A root guard while nothing went wrong: it stays that way, or the run stops here. */
    method GuardedPass(root: Handle, baseline: Stat, first: seq<Kept>, n: nat) returns (ok: bool)
      requires FirstPassed(root, baseline, first, n)
      modifies this`proofRemaining, this`proofExceeded, this`failure, kernel`calls, kernel`deviations, kernel`reports
      ensures kernel.calls <= old(kernel.calls) + 1
      ensures if ok then FirstPassed(root, baseline, first, n) else Stopped(root, baseline, first)
      ensures kernel.contents == old(kernel.contents)
      ensures ok ==> kernel.reports == old(kernel.reports) + [(ROOT, Some(baseline))]
    {
      hide SafeRecord, Distinct, Agrees;
      ghost var reports := kernel.reports;
      ok := Guarded(root, baseline);
      GuardAgrees(reports, kernel.contents, kernel.ended, baseline, first, n);
    }

    /** Capture a record in the first pass and keep it, descriptor and all. */
    method KeepFirst(root: Handle, baseline: Stat, first: seq<Kept>, index: nat) returns (ok: bool, next: seq<Kept>)
      requires index < RECORDS && FirstPassed(root, baseline, first, index) && Roomy(index)
      modifies this, kernel
      ensures kernel.calls <= old(kernel.calls) + 6 + MaximumPreads(index)
      ensures kernel.returned <= old(kernel.returned) + MaximumBytes(index) + (if ok then 0 else 1)
      ensures kernel.closes <= old(kernel.closes) + (if ok then 0 else 1)
      ensures |next| == RECORDS
      ensures ok ==> kernel.reports == old(kernel.reports) + Looks(index, next[index].observed)
      ensures ok ==> HasKept(root, baseline, next, index + 1) && next[..index] == first[..index]
      ensures !ok ==> next == first && Stopped(root, baseline, next)
    {
      hide Looks, MaximumPreads, MaximumBytes, SafeRecord, Distinct, Agrees, HeldOpen, HeldBy;
      ghost var open, reports, contents, ended := kernel.open, kernel.reports, kernel.contents, kernel.ended;
      var record := CaptureOne(baseline, index, true);
      if record.None? {
        return false, first;
      }
      ok, next := true, first[index := record.value];
      if record.value.observed.Present? {
        ghost var h :| KeptThrough(h, index, record.value.observed.bytes, record.value.held, true);
        assert kernel.open == open + {h} && h !in open;
      }
      HeldMore(open, root, first, index, record.value);
      assert kernel.open == open + (if record.value.held.Some? then {record.value.held.value} else {});
      AgreesOnceSeen(reports, contents, ended, kernel.reports, kernel.contents, kernel.ended,
                     baseline, first, index, next, index + 1, index);
    }

    method FirstPass(root: Handle, baseline: Stat) returns (ok: bool, first: seq<Kept>)
      requires FirstPassed(root, baseline, NothingKept(), 0) && Within(CallsBefore(0, 0), 0, 0)
      modifies this, kernel
      ensures |first| == RECORDS
      ensures ok ==> FirstPassed(root, baseline, first, RECORDS)
      ensures ok ==> kernel.reports == old(kernel.reports) + Observing(baseline, first, RECORDS)
      ensures ok ==> Within(CallsBefore(0, RECORDS), BytesUpTo(RECORDS), 0)
      ensures !ok ==> Stopped(root, baseline, first) && Within(CallsBefore(0, RECORDS), BytesUpTo(RECORDS) + 1, 1)
    {
      hide Looks, Around, MaximumPreads, MaximumBytes, SafeRecord, Distinct, Agrees, HeldOpen, Stopped, FirstPassed;
      ok, first := true, NothingKept();
      ghost var reports := kernel.reports;
      for index := 0 to RECORDS
        invariant ok && FirstPassed(root, baseline, first, index) && |first| == RECORDS
        invariant Within(CallsBefore(0, index), BytesUpTo(index), 0)
        invariant kernel.reports == old(kernel.reports) + Observing(baseline, first, index)
      {
        BytesBound(index);
        ghost var before := first;
        ok, first := ObserveFirst(root, baseline, first, index);
        if !ok {
          CallsGrow(0, index + 1);
          return;
        }
        ObservingIsSteady(baseline, before, first, index);
        PassJoins(reports, baseline, Observing(baseline, first, index), Looks(index, first[index].observed));
      }
    }

    /** One observation of the second pass; `seconds` are the identities it has seen. */
    method ObserveSecond(root: Handle, baseline: Stat, first: seq<Kept>, seconds: seq<Observation>, index: nat)
      returns (ok: bool, second: Observation)
      requires index < RECORDS && |seconds| == index && FirstPassed(root, baseline, first, RECORDS)
      requires forall i | 0 <= i < index :: seconds[i] == first[i].observed
      requires AllRepeated(kernel.reports, kernel.contents, first, index)
      requires Within(CallsBefore(1, index), BytesUpTo(RECORDS) + BytesUpTo(index), index)
      modifies this, kernel
      ensures ok ==> FirstPassed(root, baseline, first, RECORDS) && second == first[index].observed
      ensures ok ==> AllRepeated(kernel.reports, kernel.contents, first, index + 1)
      ensures ok ==> kernel.reports == old(kernel.reports) + Around(baseline, Looks(index, first[index].observed))
      ensures ok ==> Within(CallsBefore(1, index + 1), BytesUpTo(RECORDS) + BytesUpTo(index + 1), index + 1)
      ensures !ok ==> Stopped(root, baseline, first)
      ensures !ok ==> Within(CallsBefore(1, index + 1), BytesUpTo(RECORDS) + BytesUpTo(index + 1) + 1, index + 1)
    {
      hide Looks, Around, MaximumPreads, MaximumBytes, SafeRecord, Distinct, Agrees, HeldOpen, Stopped,
        Environment.Safe, Environment.Consistent;
      ghost var reports, contents := kernel.reports, kernel.contents;
      BytesBound(index);
      second := Missing;
      ok := GuardedPass(root, baseline, first, RECORDS);
      if !ok {
        return;
      }
      ok, second := Repeat(root, baseline, first, seconds, index);
      if !ok {
        return;
      }
      ok := GuardedPass(root, baseline, first, RECORDS);
      if ok {
        AroundJoins(reports, baseline, Looks(index, first[index].observed));
        StaysRepeated(reports, contents, kernel.reports, kernel.contents, first, index);
      }
    }

    /** Capture again; the same outcome agrees with everything reported so far. */
    method CaptureAgain(root: Handle, baseline: Stat, first: seq<Kept>, index: nat)
      returns (second: Option<Observation>)
      requires index < RECORDS && FirstPassed(root, baseline, first, RECORDS) && Roomy(index)
      modifies this, kernel
      ensures kernel.calls <= old(kernel.calls) + 6 + MaximumPreads(index)
      ensures kernel.returned <= old(kernel.returned) + MaximumBytes(index) + (if second.Some? then 0 else 1)
      ensures kernel.closes <= old(kernel.closes) + 1
      ensures second == Some(first[index].observed) ==>
          FirstPassed(root, baseline, first, RECORDS) && Again(first, index)
      ensures second.Some? && second.value != first[index].observed ==> Disturbed() && Clean() && Holds(root, first)
      ensures second.Some? ==> kernel.reports == old(kernel.reports) + Looks(index, second.value)
      ensures second.None? ==> Stopped(root, baseline, first)
    {
      hide Looks, MaximumPreads, MaximumBytes, SafeRecord, Distinct, Agrees, HeldOpen, HeldBy, Environment.Safe,
        Environment.Observed;
      ghost var open, reports, contents, ended := kernel.open, kernel.reports, kernel.contents, kernel.ended;
      var record := CaptureOne(baseline, index, false);
      if record.None? {
        return None;
      }
      second := Some(record.value.observed);
      if second.value.Present? {
        ghost var h :| KeptThrough(h, index, second.value.bytes, record.value.held, false);
        assert kernel.open == open + {} == open;
        assert second.value == first[index].observed ==> first[index].held.value < old(kernel.next) <= h;
      }
      if second.value == first[index].observed {
        AgreesOnceSeen(reports, contents, ended, kernel.reports, kernel.contents, kernel.ended,
                       baseline, first, RECORDS, first, RECORDS, index);
        if second.value.Missing? {
          MissedAgain(reports, contents, ended, baseline, first, index);
        }
      }
    }

    /** Capture again, compare identities within this pass, then compare with the first. */
    method Repeat(root: Handle, baseline: Stat, first: seq<Kept>, seconds: seq<Observation>, index: nat)
      returns (ok: bool, second: Observation)
      requires index < RECORDS && |seconds| == index && FirstPassed(root, baseline, first, RECORDS) && Roomy(index)
      requires forall i | 0 <= i < index :: seconds[i] == first[i].observed
      modifies this, kernel
      ensures kernel.calls <= old(kernel.calls) + 6 + MaximumPreads(index)
      ensures kernel.returned <= old(kernel.returned) + MaximumBytes(index) + (if ok then 0 else 1)
      ensures kernel.closes <= old(kernel.closes) + 1
      ensures ok ==> FirstPassed(root, baseline, first, RECORDS) && second == first[index].observed
      ensures ok ==> Again(first, index)
      ensures ok ==> kernel.reports == old(kernel.reports) + Looks(index, first[index].observed)
      ensures !ok ==> Stopped(root, baseline, first)
    {
      hide MaximumPreads, MaximumBytes, SafeRecord, Distinct, Agrees, HeldOpen, HeldBy, Environment.Safe, Repeated;
      assert first[..RECORDS] == first;
      var captured := CaptureAgain(root, baseline, first, index);
      if captured.None? {
        return false, Missing;
      }
      second := captured.value;
      ok := SameAgain(first, second, seconds, index);
    }

    /** Something seen before is the same file. */
    ghost predicate Aliases(seen: seq<Observation>, o: Observation) {
      o.Present? && exists p :: p in seen && p.Present? && SameIdentity(p.metadata, o.metadata)
    }

    /** An identity seen earlier in this pass, or another outcome than the first, fails the run. */
    method SameAgain(first: seq<Kept>, second: Observation, seconds: seq<Observation>, index: nat) returns (ok: bool)
      requires |seconds| == index < |first| && !failure.Set() && Distinct(first)
      requires forall i | 0 <= i < index :: seconds[i] == first[i].observed
      modifies this`failure
      ensures ok <==> second == first[index].observed
      ensures ok ==> failure == old(failure)
      ensures !ok ==>
          failure == Failure(if Aliases(seconds, second) then RecordIdentityAlias else RecordChanged, Record(index))
    {
      ok := false;
      if second.Present?
         && exists prior :: 0 <= prior < index && seconds[prior].Present?
                            && SameIdentity(seconds[prior].metadata, second.metadata) {
        Choose(RecordIdentityAlias, Record(index));
      } else if second != first[index].observed {
        Choose(RecordChanged, Record(index));
      } else {
        ok := true;
      }
    }

    /** Record `index` has been observed a second time, and nothing was forgotten. */
    twostate predicate Again(first: seq<Kept>, index: nat)
      requires index < |first|
      reads kernel
    {
      && (forall h | h in old(kernel.contents) :: h in kernel.contents && kernel.contents[h] == old(kernel.contents)[h])
      && old(kernel.reports) <= kernel.reports
      && Repeated(kernel.reports, kernel.contents, first, index)
    }

    method SecondPass(root: Handle, baseline: Stat, first: seq<Kept>) returns (ok: bool)
      requires |first| == RECORDS && FirstPassed(root, baseline, first, RECORDS)
      requires Within(CallsBefore(1, 0), BytesUpTo(RECORDS), 0)
      modifies this, kernel
      ensures ok ==> FirstPassed(root, baseline, first, RECORDS)
      ensures !ok ==> Stopped(root, baseline, first)
      ensures ok ==> AllRepeated(kernel.reports, kernel.contents, first, RECORDS)
      ensures ok ==> kernel.reports == old(kernel.reports) + Observing(baseline, first, RECORDS)
      ensures Within(CallsBefore(1, RECORDS), 2 * BytesUpTo(RECORDS) + (if ok then 0 else 1), RECORDS)
    {
      hide Looks, Around, MaximumPreads, MaximumBytes, SafeRecord, Distinct, Agrees, HeldOpen, Stopped, FirstPassed;
      ok := true;
      ghost var reports := kernel.reports;
      var seconds: seq<Observation> := [];
      for index := 0 to RECORDS
        invariant ok && FirstPassed(root, baseline, first, RECORDS) && |seconds| == index && |first| == RECORDS
        invariant forall i | 0 <= i < index :: seconds[i] == first[i].observed
        invariant AllRepeated(kernel.reports, kernel.contents, first, index)
        invariant kernel.reports == old(kernel.reports) + Observing(baseline, first, index)
        invariant Within(CallsBefore(1, index), BytesUpTo(RECORDS) + BytesUpTo(index), index)
      {
        BytesBound(index);
        var second;
        ok, second := ObserveSecond(root, baseline, first, seconds, index);
        if !ok {
          CallsGrow(1, index + 1);
          return;
        }
        PassJoins(reports, baseline, Observing(baseline, first, index), Looks(index, first[index].observed));
        seconds := seconds + [second];
      }
    }

    method FinalCheck(root: Handle, baseline: Stat, first: seq<Kept>, index: nat) returns (ok: bool)
      requires FirstPassed(root, baseline, first, RECORDS) && index < RECORDS && first[index].observed.Present?
      modifies this`proofRemaining, this`proofExceeded, this`failure, kernel`calls, kernel`deviations, kernel`reports
      ensures kernel.calls <= old(kernel.calls) + 2
      ensures ok ==>
          var report := (index, Metadata(first[index].observed));
          kernel.reports == old(kernel.reports) + [report, report]
      ensures if ok then FirstPassed(root, baseline, first, RECORDS) else Stopped(root, baseline, first)
    {
      hide SafeRecord, Distinct, Agrees, BudgetReason;
      ghost var reports := kernel.reports;
      var metadata := first[index].observed.metadata;
      assert first[index].held.value in HeldBy(first);
      ok := StillNamed(index, metadata, first[index].held.value);
      if !ok {
        Choose(BudgetReason(), Record(index));
        return;
      }
      AgreesMore(reports, kernel.contents, kernel.ended, kernel.reports, kernel.contents, kernel.ended,
                 baseline, first, RECORDS, first, RECORDS, index);
    }

    /** Every held descriptor and its name once more. */
    method FinalChecks(root: Handle, baseline: Stat, first: seq<Kept>) returns (ok: bool)
      requires FirstPassed(root, baseline, first, RECORDS)
      modifies this`proofRemaining, this`proofExceeded, this`failure, kernel`calls, kernel`deviations, kernel`reports
      ensures kernel.calls <= old(kernel.calls) + 2 * RECORDS
      ensures ok ==> kernel.reports == old(kernel.reports) + Checking(first, RECORDS)
      ensures if ok then FirstPassed(root, baseline, first, RECORDS) else Stopped(root, baseline, first)
    {
      hide SafeRecord, Distinct, Agrees, BudgetReason, Stopped;
      ok := true;
      for index := 0 to RECORDS
        invariant ok && FirstPassed(root, baseline, first, RECORDS) && kernel.calls <= old(kernel.calls) + 2 * index
        invariant kernel.reports == old(kernel.reports) + Checking(first, index)
      {
        if first[index].observed.Present? {
          ok := FinalCheck(root, baseline, first, index);
          if !ok {
            return;
          }
        }
      }
    }

    // ---- The whole run ----

    method AskOwner() returns (owner: Option<int>)
      requires Valid()
      modifies this`proofRemaining, this`proofExceeded, kernel`calls, kernel`deviations
      ensures Valid() && OnlyAsked(1) && (Disturbed() || owner == Some(kernel.truth.owner))
    {
      owner := None;
      var attempt := ProofAttempt();
      if attempt {
        var uid := kernel.EffectiveUser();
        owner := Some(uid);
      }
    }

    /** The directory is private to whoever asks. */
    method ExamineRoot(root: Handle) returns (baseline: Stat, valid: bool)
      requires Valid() && root in kernel.open
      modifies this`proofRemaining, this`proofExceeded, kernel`calls, kernel`deviations, kernel`reports, kernel`flagged
      ensures Valid() && OnlyAsked(4)
      ensures valid ==>
          kernel.reports == old(kernel.reports) + [(ROOT, Some(baseline))] && SafeRoot(baseline, baseline.uid)
      ensures valid ==> kernel.flagged[root] >= 2
      ensures Disturbed() || valid == SafeRoot(kernel.truth.root, kernel.truth.owner)
      ensures Disturbed() || !valid || baseline == kernel.truth.root
    {
      hide SaneRanges;
      baseline, valid := *, false;
      var closing := Flags(root);
      var readable := Flags(root);
      var owner := AskOwner();
      var snapshot := Fstat(ROOT, root);
      if closing && readable && owner.Some? && snapshot.Some? && SafeRoot(snapshot.value, owner.value) {
        baseline, valid := snapshot.value, true;
      }
    }

    /** Take over the directory descriptor and establish the baseline everything is held to. */
    method SetUp() returns (root: Option<Handle>, baseline: Stat, valid: bool)
      requires Clean() && kernel.calls == 0 && kernel.open == {} && kernel.reports == [] && kernel.contents == map[]
      requires kernel.returned == 0 && kernel.closes == 0
      modifies this`proofRemaining, this`proofExceeded, this`failure,
        kernel`calls, kernel`deviations, kernel`next, kernel`open, kernel`reports, kernel`flagged
      ensures Valid() && kernel.calls <= 5
      ensures kernel.open == if root.Some? then {root.value} else {}
      ensures valid ==>
          && root.Some? && Clean() && kernel.reports == [(ROOT, Some(baseline))] && kernel.contents == map[]
          && kernel.returned == 0 && kernel.closes == 0 && SafeRoot(baseline, baseline.uid)
      ensures !valid ==>
          && failure.Set()
          && failure.reason in {ProofBudgetExceeded, InvalidStateDirectoryDescriptor, UnsafeStateDirectory}
      ensures !valid && failure.reason == ProofBudgetExceeded ==> proofExceeded
      ensures if valid then Tracks(baseline, NothingKept(), 0) else Excused()
    {
      hide Environment.Safe, SafeRoot;
      baseline, valid, root := *, false, None;
      var attempt := ProofAttempt();
      if attempt {
        root := kernel.Duplicate();
      }
      if root.None? {
        Choose(if proofExceeded then ProofBudgetExceeded else InvalidStateDirectoryDescriptor, StateDirectory);
        return;
      }
      baseline, valid := ExamineRoot(root.value);
      if !valid {
        Choose(if proofExceeded then ProofBudgetExceeded else UnsafeStateDirectory, StateDirectory);
      }
    }

    lemma NothingPassed(root: Handle, baseline: Stat)
      requires Clean() && kernel.open == {root}
      requires kernel.reports == [(ROOT, Some(baseline))] && kernel.contents == map[]
      requires Tracks(baseline, NothingKept(), 0)
      ensures FirstPassed(root, baseline, NothingKept(), 0)
    {
      assert HeldBy(NothingKept()) == {};
    }

    /** Both passes and the final checks; whatever stops them leaves its reason. */
    method Passes(root: Handle, baseline: Stat) returns (ok: bool, first: seq<Kept>)
      requires FirstPassed(root, baseline, NothingKept(), 0) && Within(5, 0, 0)
      modifies this, kernel
      ensures |first| == RECORDS
      ensures if ok then FirstPassed(root, baseline, first, RECORDS) else Stopped(root, baseline, first)
      ensures ok ==> AllRepeated(kernel.reports, kernel.contents, first, RECORDS)
      ensures ok ==>
          kernel.reports == old(kernel.reports)
          + (Observing(baseline, first, RECORDS) + [(ROOT, Some(baseline))] + Observing(baseline, first, RECORDS)
             + Checking(first, RECORDS))
      ensures Within(CallsBefore(1, RECORDS) + 2 * RECORDS, 2 * BytesUpTo(RECORDS) + 1, RECORDS)
    {
      hide Observing, Checking, MaximumPreads, MaximumBytes, SafeRecord, Distinct, Agrees, HeldOpen, Stopped,
        FirstPassed, AllRepeated;
      BudgetsAddUp();
      ghost var reports := kernel.reports;
      ok, first := FirstPass(root, baseline);
      if ok {
        ok := GuardedPass(root, baseline, first, RECORDS);
      }
      if ok {
        ok := SecondPass(root, baseline, first);
      }
      if ok {
        ghost var reports1 := kernel.reports;
        ok := FinalChecks(root, baseline, first);
        if ok {
          WholeJoins(reports, baseline, Observing(baseline, first, RECORDS), Checking(first, RECORDS));
          StaysRepeated(reports1, kernel.contents, kernel.reports, kernel.contents, first, RECORDS);
        }
      }
    }

    /** Both passes between the set-up and the final root guard. */
    method ObserveAll(root: Handle, baseline: Stat) returns (first: seq<Kept>)
      requires FirstPassed(root, baseline, NothingKept(), 0) && Within(5, 0, 0) && SafeRoot(baseline, baseline.uid)
      modifies this, kernel
      ensures Valid() && |first| == RECORDS && Holds(root, first) && !cleanupExceeded
      ensures Within(CallsBefore(1, RECORDS) + 2 * RECORDS + 1, 2 * BytesUpTo(RECORDS) + 1, RECORDS)
      ensures !failure.Set() && old(kernel.reports) == [(ROOT, Some(baseline))] ==>
          kernel.reports == Whole(baseline, first)
      ensures !failure.Set() ==>
          Faithful(kernel.reports, kernel.contents, kernel.ended, FieldsOf(first), baseline, first)
      ensures cleanupFailure.Set() ==> cleanupFailure.reason == CleanupFailed
      ensures failure.reason == CleanupFailed ==> cleanupFailure.Set()
      ensures failure.reason == ProofBudgetExceeded ==> proofExceeded
      ensures failure.Set() || cleanupFailure.Set() ==> Excused()
      ensures cleanupFailure.Set() ==> Disturbed()
      ensures failure.Set() || Tracks(baseline, first, RECORDS)
    {
      hide Observing, Checking, MaximumPreads, MaximumBytes, SafeRecord, Agrees, HeldOpen, Faithful, AllRepeated,
        FirstPassed, Stopped, Environment.Safe, Environment.Observed, SafeRoot;
      var passed;
      passed, first := Passes(root, baseline);
      FinalGuard(root, baseline, first, passed);
    }

    /** One close for every descriptor that is still held, then one for the root. */
    method CloseAll(root: Handle, kept: seq<Kept>)
      requires Valid() && |kept| == RECORDS && Holds(root, kept) && kernel.closes <= RECORDS && !cleanupExceeded
      modifies this`cleanupRemaining, this`cleanupExceeded, this`cleanupFailure,
        kernel`open, kernel`closes, kernel`closeFailures, kernel`deviations
      ensures Valid() && kernel.open == {} && kernel.closes <= old(kernel.closes) + RECORDS + 1 && !cleanupExceeded
      ensures kernel.closeFailures >= old(kernel.closeFailures)
      ensures cleanupFailure.Set() ==> cleanupFailure.reason == CleanupFailed || cleanupFailure == old(cleanupFailure)
      ensures Later() && (kernel.closeFailures > old(kernel.closeFailures) ==> Disturbed())
    {
      var first := kept;
      for index := 0 to RECORDS
        invariant Valid() && |first| == RECORDS && Holds(root, first)
        invariant forall i | 0 <= i < index :: first[i].held.None?
        invariant kernel.closes <= old(kernel.closes) + index && kernel.closeFailures >= old(kernel.closeFailures)
        invariant Later() && (kernel.closeFailures > old(kernel.closeFailures) ==> Disturbed())
        invariant cleanupFailure.Set() ==>
            cleanupFailure.reason == CleanupFailed || cleanupFailure == old(cleanupFailure)
      {
        if first[index].held.Some? {
          HeldLess(kernel.open, root, first, index);
        } else {
          assert first[index := Kept(first[index].observed, None)] == first;
        }
        var _ := CloseOnce(first[index].held, Record(index));
        first := first[index := Kept(first[index].observed, None)];
      }
      assert HeldBy(first) == {};
      var _ := CloseOnce(Some(root), StateDirectory);
    }

    lemma NothingHeld(root: Handle)
      requires kernel.open == {root}
      ensures Holds(root, NothingKept())
    {
      assert HeldBy(NothingKept()) == {};
    }

    /** The final root guard takes precedence over whatever the passes found. */
    method FinalGuard(root: Handle, baseline: Stat, first: seq<Kept>, passed: bool)
      requires |first| == RECORDS && SafeRoot(baseline, baseline.uid)
      requires if passed then FirstPassed(root, baseline, first, RECORDS) else Stopped(root, baseline, first)
      requires passed ==> AllRepeated(kernel.reports, kernel.contents, first, RECORDS)
      modifies this`proofRemaining, this`proofExceeded, this`failure, kernel`calls, kernel`deviations, kernel`reports
      ensures Valid() && Holds(root, first) && kernel.calls <= old(kernel.calls) + 1
      ensures !cleanupExceeded
      ensures !failure.Set() ==> kernel.reports == old(kernel.reports) + [(ROOT, Some(baseline))]
      ensures !failure.Set() ==>
          passed && Faithful(kernel.reports, kernel.contents, kernel.ended, FieldsOf(first), baseline, first)
      ensures cleanupFailure.Set() ==> cleanupFailure.reason == CleanupFailed
      ensures failure.reason == CleanupFailed ==> cleanupFailure.Set()
      ensures failure.reason == ProofBudgetExceeded ==> proofExceeded
      ensures failure.Set() || cleanupFailure.Set() ==> Excused()
      ensures cleanupFailure.Set() ==> Disturbed()
      ensures failure.Set() || Tracks(baseline, first, RECORDS)
    {
      hide SafeRecord, Agrees;
      ghost var reports := kernel.reports;
      var stable := RootGuard(root, baseline);
      if !stable {
        failure := Failure(if proofExceeded then ProofBudgetExceeded else StateDirectoryChanged, StateDirectory);
      }
      if passed && stable {
        GuardAgrees(reports, kernel.contents, kernel.ended, baseline, first, RECORDS);
        StaysRepeated(reports, kernel.contents, kernel.reports, kernel.contents, first, RECORDS);
        AllTwice(root, baseline, first);
        assert first[..RECORDS] == first;
      }
    }

    lemma AllTwice(root: Handle, baseline: Stat, first: seq<Kept>)
      requires |first| == RECORDS && AllRepeated(kernel.reports, kernel.contents, first, RECORDS)
      requires forall i | 0 <= i < RECORDS && first[i].observed.Present? ::
          && first[i].held.Some? && first[i].held.value in kernel.contents
          && kernel.contents[first[i].held.value].0 == i
      ensures forall i | 0 <= i < RECORDS :: Twice(kernel.reports, kernel.contents, first[i].observed, i)
    {
      forall i | 0 <= i < RECORDS
        ensures Twice(kernel.reports, kernel.contents, first[i].observed, i)
      {
        assert Repeated(kernel.reports, kernel.contents, first, i);
        if first[i].observed.Present? {
          var h :| h in kernel.contents && kernel.contents[h].0 == i && first[i].held != Some(h);
          assert first[i].held.value != h;
        }
      }
    }

    /** A failed clean-up decides; then the first failure; only then is there a capture. */
    method Conclude(first: seq<Kept>) returns (r: Result)
      modifies this`failure
      requires Valid() && !cleanupExceeded
      ensures r == (if cleanupFailure.Set() then FailedClosed(cleanupFailure.reason, cleanupFailure.subject)
                    else if old(failure).Set() then FailedClosed(old(failure).reason, old(failure).subject)
                    else Captured(FieldsOf(first)))
    {
      if cleanupFailure.Set() {
        failure := cleanupFailure;
      }
      r := if failure.Set() then FailedClosed(failure.reason, failure.subject) else Captured(FieldsOf(first));
    }
  }

  lemma FieldsOfTruth(e: Environment, first: seq<Kept>)
    requires |first| == RECORDS && forall i | 0 <= i < RECORDS :: first[i].observed == e.Observed(i)
    ensures FieldsOf(first) == e.Fields()
  {
  }

  /** What a capture says about everything the kernel reported during the run. */
  ghost predicate Faithful(reports: seq<Report>, contents: map<Handle, (nat, Bytes)>, ended: set<Handle>,
                           fields: seq<Option<Bytes>>, baseline: Stat, kept: seq<Kept>)
  {
    && |kept| == RECORDS && SafeRoot(baseline, baseline.uid)
    && fields == FieldsOf(kept)
    && Agrees(reports, contents, ended, baseline, kept, RECORDS)
    && Distinct(kept)
    && (forall i | 0 <= i < RECORDS && kept[i].observed.Present? ::
          && SafeRecord(kept[i].observed.metadata, baseline, MaximumBytes(i))
          && |kept[i].observed.bytes| == kept[i].observed.metadata.size)
    && (forall i | 0 <= i < RECORDS :: Twice(reports, contents, kept[i].observed, i))
  }

  /** Record `i` was read through two different descriptors, or was missing at two lookups of
      each pass. */
  ghost predicate Twice(reports: seq<Report>, contents: map<Handle, (nat, Bytes)>, o: Observation, i: nat) {
    if o.Present? then exists g, h :: g in contents && h in contents && g != h && contents[g].0 == contents[h].0 == i
    else multiset(reports)[(i, None)] >= 4
  }

  function FieldsOf(kept: seq<Kept>): seq<Option<Bytes>> {
    seq(|kept|, i requires 0 <= i < |kept| =>
      match kept[i].observed case Missing => None case Present(bytes, _) => Some(bytes))
  }

  ghost predicate Distinct(first: seq<Kept>) {
    forall i, j | 0 <= i < j < |first| && first[i].observed.Present? && first[j].observed.Present? ::
      !SameIdentity(first[i].observed.metadata, first[j].observed.metadata)
  }

  /** A capture is one view: all reports about a record or the root were the same, a record
      without a field was looked up and missing four times and never seen, one with a field was
      read twice and gave it both times, and no two present records are one file. */
  lemma CaptureIsOneView(reports: seq<Report>, contents: map<Handle, (nat, Bytes)>, ended: set<Handle>,
                         fields: seq<Option<Bytes>>, baseline: Stat, kept: seq<Kept>, a: nat, b: nat)
    requires Faithful(reports, contents, ended, fields, baseline, kept) && a < |reports| && b < |reports|
    ensures reports[a].0 == reports[b].0 ==> reports[a].1 == reports[b].1
    ensures reports[a].0 < RECORDS ==> (fields[reports[a].0].Some? <==> reports[a].1.Some?)
    ensures reports[a].0 < RECORDS && reports[b].0 < RECORDS && reports[a].0 != reports[b].0 ==>
        (reports[a].1.Some? && reports[b].1.Some? ==> !SameIdentity(reports[a].1.value, reports[b].1.value))
    ensures forall h | h in contents ::
        contents[h].0 < RECORDS && fields[contents[h].0] == Some(contents[h].1) && h in ended
    ensures forall i | 0 <= i < RECORDS && fields[i].Some? ::
        exists g, h :: g in contents && h in contents && g != h && contents[g].0 == contents[h].0 == i
    ensures forall i | 0 <= i < RECORDS && fields[i].None? :: multiset(reports)[(i, None)] >= 4
  {
    hide SafeRecord, SafeRoot;
    assert Fits(reports[a], baseline, kept, RECORDS) && Fits(reports[b], baseline, kept, RECORDS);
    assert forall i | 0 <= i < RECORDS :: Twice(reports, contents, kept[i].observed, i);
    if reports[a].0 < RECORDS && reports[b].0 < RECORDS && reports[a].0 != reports[b].0
       && reports[a].1.Some? && reports[b].1.Some? {
      var i, j := if reports[a].0 < reports[b].0 then reports[a].0 else reports[b].0,
                  if reports[a].0 < reports[b].0 then reports[b].0 else reports[a].0;
      assert !SameIdentity(kept[i].observed.metadata, kept[j].observed.metadata);
    }
  }

  /** What was captured is private: five fields from a directory of mode 0700, each from a regular
      file of mode 0600 with one name, on the directory's device and of its owner, and as long as
      that file and its bound say. */
  lemma CaptureIsPrivate(reports: seq<Report>, contents: map<Handle, (nat, Bytes)>, ended: set<Handle>,
                         fields: seq<Option<Bytes>>, baseline: Stat, kept: seq<Kept>)
    requires Faithful(reports, contents, ended, fields, baseline, kept)
    ensures |fields| == |kept| == 5
    ensures baseline.kind == Directory && baseline.permissions == 7 * 64 && Timed(baseline)
    ensures forall i | 0 <= i < 5 && fields[i].Some? ::
        && kept[i].observed.Present? && kept[i].observed.bytes == fields[i].value
        && var s := kept[i].observed.metadata;
        && s.kind == Regular && s.links == 1 && s.device == baseline.device && s.uid == baseline.uid
        && s.permissions % 64 == 0 && s.permissions / 64 == 6 && Timed(s)
        && |fields[i].value| == s.size <= [256, 4194304, 4194304, 4194304, 8404992][i]
  {
    hide Agrees;
  }

  /** `captureDormantFixedRecords`. Whatever the kernel answers: the budgets hold with the
      header's exact bounds, every descriptor opened gets exactly one close, a failed close
      fails the capture, and a capture describes all that was observed in both passes. In a safe
      environment that answers whole and unchanged throughout, the capture is what it holds. */
  method CaptureFixedRecords(kernel: Kernel) returns (r: Result, ghost baseline: Stat, ghost kept: seq<Kept>)
    requires kernel.Valid() && kernel.calls == 0 && kernel.returned == 0 && kernel.closes == 0
    requires kernel.closeFailures == 0 && kernel.open == {} && kernel.reports == [] && kernel.contents == map[]
    requires kernel.deviations == 0
    modifies kernel
    ensures kernel.open == {} && kernel.closes <= 11
    ensures kernel.calls <= 11637 && kernel.returned <= 41976321
    ensures r.Captured? ==>
        && kernel.closeFailures == 0 && kernel.reports == Whole(baseline, kept)
        && Faithful(kernel.reports, kernel.contents, kernel.ended, r.fields, baseline, kept)
    ensures r.FailedClosed? ==> r.reason != NoReason && r.reason != ProofBudgetExceeded
    ensures r.FailedClosed? ==> (r.reason == CleanupFailed <==> kernel.closeFailures > 0)
    ensures kernel.deviations == 0 && kernel.truth.Consistent() ==>
        if kernel.truth.Safe() then r == Captured(kernel.truth.Fields())
        else r.FailedClosed? && kernel.truth.Blamed(r.reason, r.subject)
  {
    hide MaximumPreads, MaximumBytes, SafeRecord, SafeRoot, Agrees, HeldOpen, Faithful, AllRepeated,
      Observer.FirstPassed, Observer.Stopped, Environment.Safe, Environment.Consistent, Environment.Blamed;
    var o := new Observer(kernel);
    kept := NothingKept();
    BudgetsAddUp();
    var root, start, valid := o.SetUp();
    baseline := start;
    var first := NothingKept();
    if valid {
      o.NothingPassed(root.value, start);
      first := o.ObserveAll(root.value, start);
      kept := first;
    } else if root.Some? {
      o.NothingHeld(root.value);
    }
    if root.Some? {
      o.CloseAll(root.value, first);
    }
    r := o.Conclude(first);
    assert !o.proofExceeded;
    if r.FailedClosed? {
      SafeIsBlameless(kernel.truth, r.reason, r.subject);
    } else if !o.Disturbed() {
      FieldsOfTruth(kernel.truth, first);
      CapturedIsSafe(kernel.truth, kernel.reports, kernel.contents, kernel.ended, r.fields, first);
    }
  }

  // ---- What is looked at, and when ----

  /** One observation: a missing record is looked up twice; one that is there is seen by its
      name, through its descriptor before and after it was read, and by its name again. */
  ghost function Looks(index: nat, o: Observation): seq<Report> {
    var report := (index, Metadata(o));
    if o.Missing? then [report, report] else [report, report, report, report]
  }

  /** What is seen of a record once its name was looked up. */
  ghost function Through(index: nat, named: Stat): seq<Report> {
    [(index, Some(named)), (index, Some(named)), (index, Some(named))]
  }

  /** What stands between two looks at the directory. */
  ghost function Around(baseline: Stat, looks: seq<Report>): seq<Report> {
    [(ROOT, Some(baseline))] + looks + [(ROOT, Some(baseline))]
  }

  lemma AroundJoins(reports: seq<Report>, baseline: Stat, looks: seq<Report>)
    ensures reports + [(ROOT, Some(baseline))] + looks + [(ROOT, Some(baseline))] == reports + Around(baseline, looks)
  {
  }

  lemma PassJoins(reports: seq<Report>, baseline: Stat, pass: seq<Report>, looks: seq<Report>)
    ensures reports + pass + Around(baseline, looks) == reports + (pass + Around(baseline, looks))
  {
  }

  lemma WholeJoins(reports: seq<Report>, baseline: Stat, pass: seq<Report>, looks: seq<Report>)
    ensures reports + pass + [(ROOT, Some(baseline))] + pass + looks
        == reports + (pass + [(ROOT, Some(baseline))] + pass + looks)
  {
  }

  /** One pass over the first `n` records, with the directory looked at around each. */
  ghost function Observing(baseline: Stat, kept: seq<Kept>, n: nat): seq<Report>
    requires n <= |kept|
  {
    if n == 0 then []
    else
      Observing(baseline, kept, n - 1) + Around(baseline, Looks(n - 1, kept[n - 1].observed))
  }

  /** The last look at each record that is there, through its descriptor and by its name. */
  ghost function Checking(kept: seq<Kept>, n: nat): seq<Report>
    requires n <= |kept|
  {
    if n == 0 then []
    else
      Checking(kept, n - 1)
      + if kept[n - 1].observed.Missing? then []
        else [(n - 1, Metadata(kept[n - 1].observed)), (n - 1, Metadata(kept[n - 1].observed))]
  }

  /** Two passes, the last looks, and the directory before, between and after. */
  ghost function Whole(baseline: Stat, kept: seq<Kept>): seq<Report> {
    var guard := [(ROOT, Some(baseline))];
    var pass := Observing(baseline, kept, |kept|);
    guard + (pass + guard + pass + Checking(kept, |kept|)) + guard
  }

  lemma {:induction false} ObservingIsSteady(baseline: Stat, kept: seq<Kept>, other: seq<Kept>, n: nat)
    requires n <= |kept| && n <= |other| && kept[..n] == other[..n]
    ensures Observing(baseline, kept, n) == Observing(baseline, other, n)
  {
    if n > 0 {
      assert kept[..n - 1] == kept[..n][..n - 1] && other[..n - 1] == other[..n][..n - 1];
      assert kept[n - 1] == kept[..n][n - 1] && other[n - 1] == other[..n][n - 1];
      ObservingIsSteady(baseline, kept, other, n - 1);
    }
  }

  /** A report about the root is the baseline, and one about a record is what is kept of it. */
  ghost predicate Fits(report: Report, baseline: Stat, first: seq<Kept>, n: nat)
    requires n <= |first|
  {
    if report.0 == ROOT then report.1 == Some(baseline)
    else report.0 < n && report.1 == Metadata(first[report.0].observed)
  }

  ghost function Metadata(o: Observation): Option<Stat> {
    match o case Missing => None case Present(_, metadata) => Some(metadata)
  }

  lemma CountsGrow(r: seq<Report>, r': seq<Report>, x: Report)
    requires r <= r'
    ensures multiset(r)[x] <= multiset(r')[x]
  {
    assert r' == r + r'[|r|..];
  }

  ghost predicate Agrees(reports: seq<Report>, contents: map<Handle, (nat, Bytes)>, ended: set<Handle>,
                         baseline: Stat, first: seq<Kept>, n: nat)
    requires n <= |first|
  {
    && (forall i | 0 <= i < |reports| :: Fits(reports[i], baseline, first, n))
    && (forall i | 0 <= i < n && first[i].observed.Missing? :: multiset(reports)[(i, None)] >= 2)
    && (forall h | h in contents ::
          && h in ended && contents[h].0 < n
          && first[contents[h].0].observed.Present? && first[contents[h].0].observed.bytes == contents[h].1)
  }

  ghost predicate HeldOpen(open: set<Handle>, root: Handle, first: seq<Kept>) {
    && open == {root} + HeldBy(first)
    && root !in HeldBy(first)
    && forall i, j | 0 <= i < j < |first| && first[i].held.Some? && first[j].held.Some? ::
        first[i].held.value != first[j].held.value
  }

  lemma HeldMore(open: set<Handle>, root: Handle, first: seq<Kept>, index: nat, kept: Kept)
    requires index < |first| && HeldOpen(open, root, first) && first[index].held.None?
    requires kept.held.Some? ==> kept.held.value !in open
    ensures HeldOpen(open + (if kept.held.Some? then {kept.held.value} else {}), root, first[index := kept])
  {
    var next := first[index := kept];
    forall h
      ensures h in HeldBy(next) <==> h in HeldBy(first) || kept.held == Some(h)
    {
      if h in HeldBy(first) {
        var i :| 0 <= i < |first| && first[i].held.Some? && first[i].held.value == h;
        assert next[i].held == Some(h);
      }
      if kept.held == Some(h) {
        assert next[index].held.value == h;
      }
    }
  }

  lemma HeldLess(open: set<Handle>, root: Handle, first: seq<Kept>, index: nat)
    requires index < |first| && HeldOpen(open, root, first) && first[index].held.Some?
    ensures first[index].held.value in open && first[index].held.value != root
    ensures HeldOpen(open - {first[index].held.value}, root, first[index := Kept(first[index].observed, None)])
  {
    var next := first[index := Kept(first[index].observed, None)];
    var gone := first[index].held.value;
    assert gone in HeldBy(first);
    forall h
      ensures h in HeldBy(next) <==> h in HeldBy(first) && h != gone
    {
      if h in HeldBy(first) && h != gone {
        var i :| 0 <= i < |first| && first[i].held.Some? && first[i].held.value == h;
        assert next[i].held == Some(h);
      }
      if h in HeldBy(next) {
        var i :| 0 <= i < |next| && next[i].held.Some? && next[i].held.value == h;
        assert first[i].held == Some(h);
      }
    }
  }

  /** One more observation, of a record that now is (or already was) kept with that outcome. */
  lemma AgreesMore(
      reports: seq<Report>, contents: map<Handle, (nat, Bytes)>, ended: set<Handle>,
      reports': seq<Report>, contents': map<Handle, (nat, Bytes)>, ended': set<Handle>,
      baseline: Stat, first: seq<Kept>, n: nat, first': seq<Kept>, n': nat, index: nat)
    requires n <= n' <= |first| == |first'| && index < n' <= RECORDS && (n < n' ==> n' == n + 1 && index == n)
    requires Agrees(reports, contents, ended, baseline, first, n)
    requires forall i | 0 <= i < n :: first'[i].observed == first[i].observed
    requires reports <= reports' && ended <= ended'
    requires forall i | |reports| <= i < |reports'| ::
        reports'[i] == (ROOT, Some(baseline))
        || reports'[i] == (index, Metadata(first'[index].observed))
    requires n < n' && first'[index].observed.Missing? ==> multiset(reports')[(index, None)] >= 2
    requires forall h | h in contents' ::
        (h in contents && contents'[h] == contents[h])
        || (h in ended' && first'[index].observed.Present? && contents'[h] == (index, first'[index].observed.bytes))
    ensures Agrees(reports', contents', ended', baseline, first', n')
  {
    forall i | 0 <= i < |reports'|
      ensures Fits(reports'[i], baseline, first', n')
    {
      if i < |reports| {
        assert reports[i] == reports'[i];
      }
    }
    forall i | 0 <= i < n' && first'[i].observed.Missing?
      ensures multiset(reports')[(i, None)] >= 2
    {
      CountsGrow(reports, reports', (i, None));
    }
  }

  /** An observation of a record leaves everything reported in agreement. */
  lemma AgreesOnceSeen(
      reports: seq<Report>, contents: map<Handle, (nat, Bytes)>, ended: set<Handle>,
      reports': seq<Report>, contents': map<Handle, (nat, Bytes)>, ended': set<Handle>,
      baseline: Stat, first: seq<Kept>, n: nat, first': seq<Kept>, n': nat, index: nat)
    requires n <= n' <= |first| == |first'| && index < n' <= RECORDS && (n < n' ==> n' == n + 1 && index == n)
    requires Agrees(reports, contents, ended, baseline, first, n)
    requires forall i | 0 <= i < n :: first'[i].observed == first[i].observed
    requires reports' == reports + Looks(index, first'[index].observed) && ended <= ended'
    requires forall h | h in contents' ::
        (h in contents && contents'[h] == contents[h])
        || (h in ended' && first'[index].observed.Present? && contents'[h] == (index, first'[index].observed.bytes))
    ensures Agrees(reports', contents', ended', baseline, first', n')
  {
    hide Agrees;
    AgreesMore(reports, contents, ended, reports', contents', ended', baseline, first, n, first', n', index);
  }

  lemma MissedAgain(reports: seq<Report>, contents: map<Handle, (nat, Bytes)>, ended: set<Handle>,
                    baseline: Stat, first: seq<Kept>, i: nat)
    requires i < RECORDS == |first| && Agrees(reports, contents, ended, baseline, first, RECORDS)
    requires first[i].observed.Missing?
    ensures multiset(reports + Looks(i, first[i].observed))[(i, None)] >= 4
  {
  }

  lemma GuardAgrees(reports: seq<Report>, contents: map<Handle, (nat, Bytes)>, ended: set<Handle>,
                    baseline: Stat, first: seq<Kept>, n: nat)
    requires n <= |first| && Agrees(reports, contents, ended, baseline, first, n)
    ensures Agrees(reports + [(ROOT, Some(baseline))], contents, ended, baseline, first, n)
  {
    var more := reports + [(ROOT, Some(baseline))];
    forall i | 0 <= i < n && first[i].observed.Missing?
      ensures multiset(more)[(i, None)] >= 2
    {
      CountsGrow(reports, more, (i, None));
    }
  }

  lemma BytesBound(i: nat)
    requires i < RECORDS
    ensures BytesUpTo(i + 1) == BytesUpTo(i) + MaximumBytes(i)
    ensures BytesUpTo(RECORDS) + BytesUpTo(i) + MaximumBytes(i) + 1 <= MAXIMUM_RETURNED_BYTES
    ensures CallsBefore(0, i + 1) == CallsBefore(0, i) + 8 + MaximumPreads(i)
    ensures CallsBefore(1, i + 1) == CallsBefore(1, i) + 8 + MaximumPreads(i)
  {
    BudgetsAddUp();
    BytesGrow(i + 1, RECORDS);
  }

  lemma {:induction false} BytesGrow(i: nat, j: nat)
    requires i <= j <= RECORDS
    ensures BytesUpTo(i) <= BytesUpTo(j)
  {
    if i < j {
      BytesGrow(i, j - 1);
    }
  }

  /** Record `i` was read through a descriptor that is not the kept one, or looked up twice
      more without being found. */
  ghost predicate Repeated(reports: seq<Report>, contents: map<Handle, (nat, Bytes)>, first: seq<Kept>, i: nat)
    requires i < |first|
  {
    if first[i].observed.Present? then exists h :: h in contents && contents[h].0 == i && first[i].held != Some(h)
    else multiset(reports)[(i, None)] >= 4
  }

  ghost predicate AllRepeated(reports: seq<Report>, contents: map<Handle, (nat, Bytes)>, first: seq<Kept>, n: nat)
    requires n <= |first|
  {
    forall i | 0 <= i < n :: Repeated(reports, contents, first, i)
  }

  /** What was repeated stays so, whatever is reported and read after it. */
  lemma StaysRepeated(reports: seq<Report>, contents: map<Handle, (nat, Bytes)>,
                      reports': seq<Report>, contents': map<Handle, (nat, Bytes)>, first: seq<Kept>, n: nat)
    requires n <= |first| && AllRepeated(reports, contents, first, n) && reports <= reports'
    requires forall h | h in contents :: h in contents' && contents'[h] == contents[h]
    ensures AllRepeated(reports', contents', first, n)
  {
    forall i | 0 <= i < n
      ensures Repeated(reports', contents', first, i)
    {
      assert Repeated(reports, contents, first, i);
      CountsGrow(reports, reports', (i, None));
    }
  }

  function NothingKept(): seq<Kept> {
    [Kept(Missing, None), Kept(Missing, None), Kept(Missing, None), Kept(Missing, None), Kept(Missing, None)]
  }

  lemma {:induction false} CallsGrow(passes: nat, i: nat)
    requires i <= RECORDS
    ensures CallsBefore(passes, i) <= CallsBefore(passes, RECORDS) && BytesUpTo(i) <= BytesUpTo(RECORDS)
    decreases RECORDS - i
  {
    if i < RECORDS {
      CallsGrow(passes, i + 1);
    }
  }

  ghost function HeldBy(first: seq<Kept>): set<Handle> {
    set i | 0 <= i < |first| && first[i].held.Some? :: first[i].held.value
  }
}

/** Package-inspection sessions: quotas, expiry, tombstones, the directories on disk, and the
    one hand-over of a finished inspection to its installer. The clock, the launcher and every
    file operation are arbitrary; `cleanupFailures` counts directories that could not be removed. */
module InspectionSessions {
  import opened Options

  const MAXIMUM_SESSIONS := 8
  const MAXIMUM_PER_SENDER := 2
  const MAXIMUM_TOMBSTONES := 64
  const TOKEN_ATTEMPTS := 8

  type Token = string
  type Sender = string

  datatype State = Pending | Complete | Failed

  /** `serial` tells sessions apart that happen to draw the same token. */
  datatype Session = Session(owner: Sender, digest: string, expiresAt: int, state: State, serial: nat)
  datatype Tombstone = Tombstone(owner: Sender, purgeAt: int)

  datatype Error =
    | InspectionUnavailable
    | InvalidPackageDescriptor
    | InspectionOwnerMismatch
    | InspectionExpired
    | UnknownInspection
    | ArchiveDigestMismatch

  datatype BeginResult = Begun(token: Token) | BeginFailed(error: Error)
  datatype TakeResult = Taken(digest: string) | TakeFailed(error: Error)
  datatype LookupResult = LookedUp(state: State, digest: string) | LookupFailed(error: Error)

  /** What the launcher reports: whether it worked, whether the outputs load, and the time. */
  datatype Outcome = Outcome(success: bool, outputsLoad: bool, clock: int)
  {
    predicate Good() {
      success && outputsLoad
    }
  }

  /** The sessions after a completion that came in time. */
  ghost function Completed(sessions: map<Token, Session>, token: Token, outcome: Outcome): map<Token, Session>
    requires token in sessions
  {
    if outcome.success && outcome.outputsLoad then sessions[token := sessions[token].(state := Complete)]
    else sessions - {token}
  }

  /** The sessions once one has begun, unless the launcher's early completion came too late. */
  ghost function Started(sessions: map<Token, Session>, token: Token, session: Session, early: Option<Outcome>):
    map<Token, Session>
  {
    if early.None? then sessions[token := session] else Completed(sessions[token := session], token, early.value)
  }

  /** What the machine does while a session begins: the tokens drawn, whether the directory could
      be made and opened and the package copied, the time, and what the launcher answers; `early`
      is a completion before that answer. */
  datatype Staging = Staging(draws: seq<Token>, made: bool, entered: bool, copied: bool, digest: string, clock: int,
                             early: Option<Outcome>, launched: bool)
  {
    ghost predicate InTime(expiresAt: int) {
      early.None? || early.value.clock < expiresAt
    }

    ghost predicate Works() {
      made && entered && copied && launched
    }

    /** One of the tokens tried is in no use. */
    ghost predicate DrawsFree(sessions: map<Token, Session>, disk: set<Token>) {
      exists i | 0 <= i < |draws| && i < 8 :: draws[i] !in sessions && draws[i] !in disk
    }
  }

  ghost function Unexpired(sessions: map<Token, Session>, now: int): map<Token, Session> {
    map t | t in sessions && sessions[t].expiresAt > now :: sessions[t]
  }

  /** The tombstones whose time has not come. */
  ghost function Remembered(expired: map<Token, Tombstone>, now: int): map<Token, Tombstone> {
    map t | t in expired && expired[t].purgeAt > now :: expired[t]
  }

  /** A tombstone for each session whose time is up. */
  ghost function Buried(sessions: map<Token, Session>, now: int, timeToLive: int): map<Token, Tombstone> {
    map t | t in sessions && sessions[t].expiresAt <= now :: Tombstone(sessions[t].owner, now + timeToLive)
  }

  /** Nothing but what `wanted` says, and all of that when there is room for it. */
  ghost predicate Kept(expired: map<Token, Tombstone>, wanted: map<Token, Tombstone>) {
    expired.Items <= wanted.Items && (|wanted| <= 64 ==> expired == wanted)
  }

  lemma ItemsAreThere(m: map<Token, Tombstone>, wanted: map<Token, Tombstone>)
    requires forall t | t in m :: t in wanted && m[t] == wanted[t]
    ensures m.Items <= wanted.Items
  {
  }

  lemma KeptMore(e: map<Token, Tombstone>, wanted: map<Token, Tombstone>, e': map<Token, Tombstone>, t: Token,
                 x: Tombstone)
    requires Kept(e, wanted) && Kept(e', e[t := x])
    ensures Kept(e', wanted[t := x])
  {
    SubsetIsSmaller(wanted.Keys, wanted[t := x].Keys);
    forall u | u in e'
      ensures u in wanted[t := x] && e'[u] == wanted[t := x][u]
    {
      assert (u, e'[u]) in e[t := x].Items;
      if u != t {
        assert (u, e[u]) in wanted.Items;
      }
    }
    ItemsAreThere(e', wanted[t := x]);
  }

  lemma NothingBuried(expired: map<Token, Tombstone>, now: int)
    ensures Kept(Remembered(expired, now), Remembered(expired, now))
  {
  }

  lemma NothingBuriedYet(start: map<Token, Tombstone>, sessions: map<Token, Session>, now: int, timeToLive: int)
    ensures start == start + Buried(sessions - sessions.Keys, now, timeToLive)
  {
  }

  lemma BuriedMore(start: map<Token, Tombstone>, sessions: map<Token, Session>, todo: set<Token>, t: Token,
                   now: int, timeToLive: int)
    requires t in todo && t in sessions
    ensures start + Buried(sessions - (todo - {t}), now, timeToLive) ==
        var wanted := start + Buried(sessions - todo, now, timeToLive);
        if sessions[t].expiresAt > now then wanted
        else wanted[t := Tombstone(sessions[t].owner, now + timeToLive)]
  {
    assert Buried(sessions - (todo - {t}), now, timeToLive) ==
        if sessions[t].expiresAt > now then Buried(sessions - todo, now, timeToLive)
        else Buried(sessions - todo, now, timeToLive)[t := Tombstone(sessions[t].owner, now + timeToLive)];
  }

  lemma UnexpiredAreThere(sessions: map<Token, Session>, now: int)
    ensures forall t <- Unexpired(sessions, now) :: t in sessions && Unexpired(sessions, now)[t] == sessions[t]
    ensures Unexpired(sessions, now).Keys <= sessions.Keys
  {
  }

  /** Fewer than eight sessions, and fewer than two of the sender's. */
  ghost predicate HasRoom(sessions: map<Token, Session>, sender: Sender) {
    |sessions| < 8 && |set t | t in sessions && sessions[t].owner == sender| < 2
  }

  lemma RoomIsCounted(sessions: map<Token, Session>, sender: Sender)
    ensures HasRoom(sessions, sender) <==> |sessions| < 8 && |OwnedBy(sessions, sender)| < 2
  {
    assert OwnedBy(sessions, sender) == set t | t in sessions && sessions[t].owner == sender;
  }

  function OwnedBy(sessions: map<Token, Session>, sender: Sender): set<Token> {
    set t | t in sessions && sessions[t].owner == sender
  }

  ghost function OnDisk(sessions: map<Token, Session>): set<Token> {
    set t | t in sessions && sessions[t].state != Failed
  }

  ghost predicate WithinQuota(sessions: map<Token, Session>, expired: map<Token, Tombstone>) {
    && |sessions| <= 8
    && (forall s :: |OwnedBy(sessions, s)| <= 2)
    && |expired| <= 64
  }

  lemma SubsetIsSmaller<T>(a: set<T>, b: set<T>)
    requires a <= b
    ensures |a| <= |b|
  {
    if a != {} {
      var x :| x in a;
      SubsetIsSmaller(a - {x}, b - {x});
    }
  }

  lemma FewerIsWithin(small: map<Token, Session>, sessions: map<Token, Session>, expired: map<Token, Tombstone>)
    requires WithinQuota(sessions, expired) && small.Keys <= sessions.Keys
    requires forall t | t in small :: small[t].owner == sessions[t].owner
    ensures WithinQuota(small, expired)
  {
    SubsetIsSmaller(small.Keys, sessions.Keys);
    forall s
      ensures |OwnedBy(small, s)| <= 2
    {
      SubsetIsSmaller(OwnedBy(small, s), OwnedBy(sessions, s));
    }
  }

  lemma OwnedWithOneMore(sessions: map<Token, Session>, t: Token, s: Session, o: Sender)
    requires t !in sessions
    ensures OwnedBy(sessions[t := s], o) == OwnedBy(sessions, o) + (if o == s.owner then {t} else {})
  {
  }

  lemma OneMoreIsWithin(sessions: map<Token, Session>, expired: map<Token, Tombstone>, t: Token, s: Session)
    requires WithinQuota(sessions, expired) && t !in sessions
    requires HasRoom(sessions, s.owner)
    ensures WithinQuota(sessions[t := s], expired)
  {
    RoomIsCounted(sessions, s.owner);
    hide OwnedBy;
    var more := sessions[t := s];
    assert more.Keys == sessions.Keys + {t};
    forall o
      ensures |OwnedBy(more, o)| <= 2
    {
      OwnedWithOneMore(sessions, t, s, o);
    }
  }

  /** Serials tell sessions apart, and those handed out are gone. */
  ghost predicate Identified(sessions: map<Token, Session>, begun: nat, taken: set<nat>) {
    && (forall t | t in sessions :: sessions[t].serial < begun && sessions[t].serial !in taken)
    && (forall t, u | t in sessions && u in sessions && sessions[t].serial == sessions[u].serial :: t == u)
    && (forall n | n in taken :: n < begun)
  }

  /** The directories that are needed are there; while clean-up works there are no others. */
  ghost predicate Housed(sessions: map<Token, Session>, leases: set<Token>, disk: set<Token>, failures: nat) {
    && sessions.Keys !! leases
    && OnDisk(sessions) + leases <= disk
    && (failures == 0 ==> disk == OnDisk(sessions) + leases)
  }

  /** One attempt to remove a directory. */
  ghost predicate Cleaned(t: Token, disk: set<Token>, failures: nat, disk': set<Token>, failures': nat) {
    || (disk' == disk - {t} && failures' == failures)
    || (disk' == disk && t in disk && failures' == failures + 1)
  }

  lemma WithoutIsFine(sessions: map<Token, Session>, expired: map<Token, Tombstone>, begun: nat, taken: set<nat>,
                      t: Token)
    requires WithinQuota(sessions, expired) && Identified(sessions, begun, taken)
    ensures WithinQuota(sessions - {t}, expired) && Identified(sessions - {t}, begun, taken)
  {
    FewerIsWithin(sessions - {t}, sessions, expired);
  }

  lemma WithoutIsHoused(sessions: map<Token, Session>, leases: set<Token>, disk: set<Token>, failures: nat,
                        t: Token, disk': set<Token>, failures': nat)
    requires Housed(sessions, leases, disk, failures) && t !in leases && Cleaned(t, disk, failures, disk', failures')
    ensures Housed(sessions - {t}, leases, disk', failures')
  {
    assert OnDisk(sessions - {t}) == OnDisk(sessions) - {t};
  }

  lemma NeverNeededIsHoused(sessions: map<Token, Session>, leases: set<Token>, disk: set<Token>, failures: nat,
                            t: Token, disk': set<Token>, failures': nat)
    requires Housed(sessions, leases, disk, failures) && t !in leases && t !in sessions
    requires Cleaned(t, disk, failures, disk', failures')
    ensures Housed(sessions, leases, disk', failures')
  {
  }

  /** What is handed out is remembered, and the session that had the serial is gone. */
  lemma HandedOutIsIdentified(sessions: map<Token, Session>, begun: nat, taken: set<nat>, t: Token)
    requires Identified(sessions, begun, taken) && t in sessions
    ensures Identified(sessions - {t}, begun, taken + {sessions[t].serial})
  {
  }

  lemma HandedOutIsHoused(sessions: map<Token, Session>, leases: set<Token>, disk: set<Token>, failures: nat, t: Token)
    requires Housed(sessions, leases, disk, failures) && t in sessions && sessions[t].state != Failed
    ensures Housed(sessions - {t}, leases + {t}, disk, failures)
  {
    assert OnDisk(sessions - {t}) == OnDisk(sessions) - {t};
  }

  /** A session in another state is the same session. */
  lemma RestatedIsFine(sessions: map<Token, Session>, expired: map<Token, Tombstone>, begun: nat, taken: set<nat>,
                       t: Token, state: State)
    requires WithinQuota(sessions, expired) && Identified(sessions, begun, taken) && t in sessions
    ensures var next := sessions[t := sessions[t].(state := state)];
      WithinQuota(next, expired) && Identified(next, begun, taken)
  {
    var next := sessions[t := sessions[t].(state := state)];
    FewerIsWithin(next, sessions, expired);
    assert forall u | u in next :: next[u].serial == sessions[u].serial;
  }

  /** What is in no use stays so when less is in use. */
  lemma FewerInUse(staging: Staging, sessions: map<Token, Session>, disk: set<Token>,
                   fewer: map<Token, Session>, less: set<Token>)
    requires fewer.Keys <= sessions.Keys && less <= disk
    ensures staging.DrawsFree(sessions, disk) ==> staging.DrawsFree(fewer, less)
  {
  }

  class Sessions {
    var ownsSpool: bool
    var timeToLive: int
    var sessions: map<Token, Session>
    var expired: map<Token, Tombstone>
    /** Token directories under the spool root. */
    var disk: set<Token>
    /** Tokens whose directories belong to an artifact that was handed out. */
    var leases: set<Token>
    ghost var cleanupFailures: nat
    var begun: nat
    /** Serials of the sessions that were handed out. */
    ghost var taken: set<nat>

    ghost predicate Valid()
      reads this
    {
      && WithinQuota(sessions, expired)
      && Identified(sessions, begun, taken)
      && (if ownsSpool then Housed(sessions, leases, disk, cleanupFailures) else sessions == map[] && leases == {})
    }

    /** A new manager: it owns the spool or it never touches it. */
    constructor (owns: bool, timeToLive: int, stale: set<Token>)
      ensures Valid() && sessions == map[] && expired == map[] && leases == {}
      ensures ownsSpool == owns && (!owns ==> disk == stale)
      ensures cleanupFailures <= |stale|
    {
      ownsSpool, this.timeToLive := owns, timeToLive;
      sessions, expired, leases, begun, taken := map[], map[], {}, 0, {};
      disk, cleanupFailures := stale, 0;
      new;
      if owns {
        var todo := stale;
        while todo != {}
          invariant todo <= disk && sessions == map[] && expired == map[] && leases == {} && begun == 0 && taken == {}
          invariant cleanupFailures == 0 ==> disk == todo
          invariant cleanupFailures + |todo| <= |stale|
          invariant ownsSpool == owns
        {
          var t :| t in todo;
          todo := todo - {t};
          Cleanup(t);
        }
      }
    }

    /** `cleanupFixedDirectoryAt`: the directory goes, or stays behind. */
    method Cleanup(token: Token)
      modifies this`disk, this`cleanupFailures
      ensures Cleaned(token, old(disk), old(cleanupFailures), disk, cleanupFailures)
    {
      var removed: bool := *;
      if removed || token !in disk {
        disk := disk - {token};
      } else {
        cleanupFailures := cleanupFailures + 1;
      }
    }

    method Forget(token: Token)
      requires Valid() && token in sessions
      modifies this`sessions, this`disk, this`cleanupFailures
      ensures Valid() && sessions == old(sessions) - {token}
      ensures cleanupFailures >= old(cleanupFailures) && disk <= old(disk)
    {
      hide WithinQuota, Identified, OnDisk;
      Cleanup(token);
      WithoutIsFine(sessions, expired, begun, taken, token);
      WithoutIsHoused(sessions, leases, old(disk), old(cleanupFailures), token, disk, cleanupFailures);
      sessions := sessions - {token};
    }

    method AddExpired(token: Token, owner: Sender, now: int)
      requires Valid()
      modifies this`expired
      ensures Valid()
      ensures Kept(expired, old(expired)[token := Tombstone(owner, now + timeToLive)])
    {
      hide Identified, Housed, OwnedBy;
      var next := expired[token := Tombstone(owner, now + timeToLive)];
      expired := Trim(next);
    }

    /** Drop whichever come first until the limit is kept. */
    static method Trim(wanted: map<Token, Tombstone>) returns (kept: map<Token, Tombstone>)
      ensures Kept(kept, wanted) && |kept| <= 64
    {
      kept := wanted;
      while |kept| > MAXIMUM_TOMBSTONES
        invariant |wanted| <= MAXIMUM_TOMBSTONES ==> kept == wanted
        invariant forall t | t in kept :: t in wanted && kept[t] == wanted[t]
      {
        var t :| t in kept;
        assert (kept - {t}).Keys == kept.Keys - {t};
        kept := kept - {t};
      }
      ItemsAreThere(kept, wanted);
    }

    method PruneExpired(now: int)
      requires Valid()
      modifies this`expired
      ensures Valid() && expired == Remembered(old(expired), now)
    {
      var next := map t | t in expired && expired[t].purgeAt > now :: expired[t];
      SubsetIsSmaller(next.Keys, expired.Keys);
      assert next == Remembered(expired, now);
      expired := next;
    }

    /** Every session whose time is up becomes a tombstone and loses its directory. */
    method ExpireNow() returns (now: int)
      requires Valid()
      modifies this`sessions, this`expired, this`disk, this`cleanupFailures
      ensures Valid() && cleanupFailures >= old(cleanupFailures)
      ensures ownsSpool == old(ownsSpool) && (!ownsSpool ==> disk == old(disk))
      ensures ownsSpool ==> sessions == Unexpired(old(sessions), now)
      ensures ownsSpool ==>
          Kept(expired, Remembered(old(expired), now) + Buried(old(sessions), now, timeToLive))
      ensures !ownsSpool ==> sessions == old(sessions) && expired == old(expired)
      ensures disk <= old(disk)
    {
      hide WithinQuota, Identified, Housed, Kept, Buried, Remembered;
      now := *;
      if !ownsSpool {
        return;
      }
      PruneExpired(now);
      NothingBuried(old(expired), now);
      ghost var wanted := BuryAll(now, Remembered(old(expired), now));
    }

    method BuryAll(now: int, ghost start: map<Token, Tombstone>) returns (ghost wanted: map<Token, Tombstone>)
      requires Valid() && ownsSpool && Kept(expired, start)
      modifies this`sessions, this`expired, this`disk, this`cleanupFailures
      ensures Valid() && cleanupFailures >= old(cleanupFailures) && disk <= old(disk)
      ensures sessions == Unexpired(old(sessions), now)
      ensures Kept(expired, wanted) && wanted == start + Buried(old(sessions), now, timeToLive)
    {
      hide WithinQuota, Identified, Housed, Kept, Buried;
      wanted := start;
      NothingBuriedYet(start, old(sessions), now, timeToLive);
      var todo := sessions.Keys;
      while todo != {}
        invariant Valid() && ownsSpool && cleanupFailures >= old(cleanupFailures) && disk <= old(disk)
        invariant todo <= sessions.Keys <= old(sessions).Keys
        invariant forall t | t in sessions :: sessions[t] == old(sessions)[t]
        invariant forall t | t in sessions && t !in todo :: sessions[t].expiresAt > now
        invariant forall t | t in old(sessions) && t !in sessions :: old(sessions)[t].expiresAt <= now
        invariant Kept(expired, wanted)
        invariant wanted == start + Buried(old(sessions) - todo, now, timeToLive)
      {
        var t :| t in todo;
        BuriedMore(start, old(sessions), todo, t, now, timeToLive);
        todo := todo - {t};
        if sessions[t].expiresAt <= now {
          wanted := Bury(t, now, wanted);
        }
      }
      assert old(sessions) - {} == old(sessions);
    }

    /** The tombstone first, then the session and its directory. */
    method Bury(t: Token, now: int, ghost wanted: map<Token, Tombstone>) returns (ghost more: map<Token, Tombstone>)
      requires Valid() && ownsSpool && t in sessions && Kept(expired, wanted)
      modifies this`sessions, this`expired, this`disk, this`cleanupFailures
      ensures Valid() && cleanupFailures >= old(cleanupFailures) && disk <= old(disk)
      ensures sessions == old(sessions) - {t}
      ensures more == wanted[t := Tombstone(old(sessions)[t].owner, now + timeToLive)] && Kept(expired, more)
    {
      hide WithinQuota, Identified, Housed, Kept;
      more := wanted[t := Tombstone(sessions[t].owner, now + timeToLive)];
      AddExpired(t, sessions[t].owner, now);
      KeptMore(old(expired), wanted, expired, t, Tombstone(sessions[t].owner, now + timeToLive));
      Forget(t);
    }

    /** A directory nobody has yet; an existing one is never reused. */
    method DrawToken(staging: Staging) returns (token: Option<Token>)
      requires Valid() && ownsSpool
      modifies this`disk, this`cleanupFailures
      ensures token.None? ==> Valid()
      ensures token.Some? ==>
          && token.value !in sessions && token.value !in leases && token.value in disk
          && Housed(sessions, leases, disk - {token.value}, cleanupFailures)
      ensures token.Some? <==> staging.DrawsFree(sessions, old(disk)) && staging.made && staging.entered
    {
      hide WithinQuota, Identified, OnDisk;
      token := None;
      for attempt := 0 to TOKEN_ATTEMPTS
        invariant disk == old(disk) && cleanupFailures == old(cleanupFailures)
        invariant forall i | 0 <= i < attempt && i < |staging.draws| ::
            staging.draws[i] in sessions || staging.draws[i] in disk
      {
        if attempt < |staging.draws| && staging.draws[attempt] !in sessions && staging.draws[attempt] !in disk {
          var drawn := staging.draws[attempt];
          if !staging.made {
            return;
          }
          disk := disk + {drawn};
          assert disk - {drawn} == old(disk);
          if !staging.entered {
            Abandon(drawn);
            return;
          }
          return Some(drawn);
        }
      }
    }

    /** A directory that never belonged to a session goes, or stays behind and is counted. */
    method Abandon(token: Token)
      requires ownsSpool && WithinQuota(sessions, expired) && Identified(sessions, begun, taken)
      requires token !in sessions && token !in leases && token in disk
      requires Housed(sessions, leases, disk - {token}, cleanupFailures)
      modifies this`disk, this`cleanupFailures
      ensures Valid()
    {
      hide WithinQuota, Identified, OnDisk;
      Cleanup(token);
    }

    /** With room among the unexpired sessions, a token in no use and a machine that plays along,
        a session begins; nothing less begins one. */
    method Begin(sender: Sender, senderValid: bool, descriptorValid: bool, staging: Staging)
      returns (r: BeginResult, now: int)
      requires Valid()
      modifies this
      ensures Valid()
      ensures !ownsSpool ==> disk == old(disk)
      ensures ownsSpool == old(ownsSpool) && timeToLive == old(timeToLive)
      ensures leases == old(leases) && taken == old(taken)
      ensures r.Begun? ==>
          && ownsSpool && timeToLive > 0 && senderValid && descriptorValid && staging.Works()
          && HasRoom(Unexpired(old(sessions), now), sender)
      ensures (r == BeginFailed(InspectionUnavailable) || r == BeginFailed(InvalidPackageDescriptor)) <==> !r.Begun?
      ensures r == BeginFailed(InvalidPackageDescriptor) ==>
          && ownsSpool && timeToLive > 0 && senderValid && HasRoom(Unexpired(old(sessions), now), sender)
          && !(descriptorValid && staging.copied)
      ensures (ownsSpool && timeToLive > 0 && senderValid && HasRoom(Unexpired(old(sessions), now), sender)
          && !descriptorValid) ==> r == BeginFailed(InvalidPackageDescriptor)
      ensures (ownsSpool && timeToLive > 0 && senderValid && descriptorValid && staging.Works()
          && HasRoom(Unexpired(old(sessions), now), sender) && staging.DrawsFree(old(sessions), old(disk))) ==> r.Begun?
      ensures r.Begun? && staging.InTime(staging.clock + timeToLive) ==>
          sessions == Started(Unexpired(old(sessions), now), r.token,
                              Session(sender, staging.digest, staging.clock + timeToLive, Pending, old(begun)),
                              staging.early)
      ensures r.Begun? && r.token in sessions ==>
          sessions[r.token].owner == sender && sessions[r.token].serial == old(begun)
      ensures forall t | t in sessions && sessions[t].serial != old(begun) ::
          t in old(sessions) && sessions[t] == old(sessions)[t]
      ensures r.BeginFailed? ==> forall t | t in sessions :: t in old(sessions) && sessions[t] == old(sessions)[t]
    {
      hide Started, Staging.InTime, OwnedBy, Unexpired, Staging.DrawsFree, WithinQuota, Identified, Housed;
      now := 0;
      if !ownsSpool || timeToLive <= 0 || !senderValid {
        return BeginFailed(InspectionUnavailable), now;
      }
      now := ExpireNow();
      UnexpiredAreThere(old(sessions), now);
      RoomIsCounted(sessions, sender);
      if |sessions| >= MAXIMUM_SESSIONS || |OwnedBy(sessions, sender)| >= MAXIMUM_PER_SENDER {
        return BeginFailed(InspectionUnavailable), now;
      }
      if !descriptorValid {
        return BeginFailed(InvalidPackageDescriptor), now;
      }
      FewerInUse(staging, old(sessions), old(disk), sessions, disk);
      r := BeginStaged(sender, staging);
    }

    method BeginStaged(sender: Sender, staging: Staging) returns (r: BeginResult)
      requires Valid() && ownsSpool && HasRoom(sessions, sender)
      modifies this
      ensures Valid()
      ensures ownsSpool && leases == old(leases) && taken == old(taken) && timeToLive == old(timeToLive)
      ensures r.Begun? || r == BeginFailed(InspectionUnavailable)
          || (r == BeginFailed(InvalidPackageDescriptor) && !staging.copied)
      ensures r.Begun? <==> staging.Works() && staging.DrawsFree(old(sessions), old(disk))
      ensures r.Begun? && staging.InTime(staging.clock + timeToLive) ==>
          sessions == Started(old(sessions), r.token,
                              Session(sender, staging.digest, staging.clock + timeToLive, Pending, old(begun)),
                              staging.early)
      ensures r.Begun? && r.token in sessions ==>
          sessions[r.token].owner == sender && sessions[r.token].serial == old(begun)
      ensures forall t | t in sessions && sessions[t].serial != old(begun) ::
          t in old(sessions) && sessions[t] == old(sessions)[t]
      ensures r.BeginFailed? ==> forall t | t in sessions :: t in old(sessions) && sessions[t] == old(sessions)[t]
    {
      hide WithinQuota, Identified, Housed, OwnedBy, HasRoom, Staging.DrawsFree;
      var drawn := DrawToken(staging);
      if drawn.None? {
        return BeginFailed(InspectionUnavailable);
      }
      var token := drawn.value;
      if !staging.copied {
        Abandon(token);
        return BeginFailed(InvalidPackageDescriptor);
      }
      Insert(token, Session(sender, staging.digest, staging.clock + timeToLive, Pending, begun));
      r := Launch(token, staging);
    }

    method Insert(token: Token, session: Session)
      requires ownsSpool && WithinQuota(sessions, expired) && Identified(sessions, begun, taken)
      requires token !in sessions && token !in leases && session.state == Pending && session.serial == begun
      requires token in disk && Housed(sessions, leases, disk - {token}, cleanupFailures)
      requires HasRoom(sessions, session.owner)
      modifies this`sessions, this`begun
      ensures Valid() && sessions == old(sessions)[token := session] && begun == old(begun) + 1
    {
      hide WithinQuota, OwnedBy;
      OneMoreIsWithin(sessions, expired, token, session);
      assert OnDisk(sessions[token := session]) == OnDisk(sessions) + {token};
      sessions, begun := sessions[token := session], begun + 1;
    }

    /** The launcher may accept, refuse, or even complete before it answers. */
    method Launch(token: Token, staging: Staging) returns (r: BeginResult)
      requires Valid() && token in sessions && token !in leases
      modifies this`sessions, this`expired, this`disk, this`cleanupFailures
      ensures Valid()
      ensures r == if staging.launched then Begun(token) else BeginFailed(InspectionUnavailable)
      ensures r.BeginFailed? ==> token !in sessions
      ensures r.Begun? && staging.early.None? ==> sessions == old(sessions)
      ensures (r.Begun? && staging.early.Some? && ownsSpool && old(sessions)[token].state == Pending
          && old(sessions)[token].expiresAt > staging.early.value.clock) ==>
          sessions == Completed(old(sessions), token, staging.early.value)
      ensures forall t | t in sessions ::
          t in old(sessions) && sessions[t] == old(sessions)[t].(state := sessions[t].state)
          && (t != token ==> sessions[t] == old(sessions)[t])
    {
      hide WithinQuota, Identified, Housed;
      if staging.early.Some? {
        LauncherFinished(token, staging.early.value);
      }
      if staging.launched {
        return Begun(token);
      }
      r := BeginFailed(InspectionUnavailable);
      if token in sessions {
        Forget(token);
      } else {
        ghost var disk0, failures0 := disk, cleanupFailures;
        Cleanup(token);
        NeverNeededIsHoused(sessions, leases, disk0, failures0, token, disk, cleanupFailures);
      }
    }

    /** The launcher's completion; only a pending, unexpired session is touched. */
    method LauncherFinished(token: Token, outcome: Outcome)
      requires Valid()
      modifies this`sessions, this`expired, this`disk, this`cleanupFailures
      ensures Valid()
      ensures ownsSpool == old(ownsSpool) && (!ownsSpool ==> disk == old(disk))
      ensures forall t | t in sessions ::
          t in old(sessions) && sessions[t] == old(sessions)[t].(state := sessions[t].state)
          && (t != token ==> sessions[t] == old(sessions)[t])
      ensures token in sessions && sessions[token].state != old(sessions)[token].state ==>
          old(sessions)[token].state == Pending && sessions[token].state == Complete
          && outcome.success && outcome.outputsLoad
      ensures (ownsSpool && token in old(sessions) && old(sessions)[token].state == Pending
          && old(sessions)[token].expiresAt > outcome.clock) ==>
          sessions == Completed(old(sessions), token, outcome)
      ensures (ownsSpool && token in old(sessions) && old(sessions)[token].state == Pending
          && old(sessions)[token].expiresAt <= outcome.clock) ==>
          exists later :: sessions == Unexpired(old(sessions), later)
      ensures (token !in old(sessions) || old(sessions)[token].state != Pending) ==>
          sessions == old(sessions) && expired == old(expired)
    {
      if !ownsSpool || token !in sessions || sessions[token].state != Pending {
        return;
      }
      if sessions[token].expiresAt <= outcome.clock {
        var _ := ExpireNow();
      } else if !outcome.Good() {
        Forget(token);
      } else {
        Promote(token, Complete);
      }
    }

    method Promote(token: Token, state: State)
      requires Valid() && token in sessions && state != Failed && sessions[token].state != Failed
      modifies this`sessions
      ensures Valid() && sessions == old(sessions)[token := old(sessions)[token].(state := state)]
    {
      hide WithinQuota, Identified;
      RestatedIsFine(sessions, expired, begun, taken, token, state);
      assert OnDisk(sessions[token := sessions[token].(state := state)]) == OnDisk(sessions);
      sessions := sessions[token := sessions[token].(state := state)];
    }

    function Absent(sender: Sender, token: Token): Error
      reads this
    {
      if token !in expired then UnknownInspection
      else if expired[token].owner != sender then InspectionOwnerMismatch
      else InspectionExpired
    }

    /** Who owns a token that is known. */
    ghost predicate Owns(sender: Sender, token: Token)
      reads this
    {
      token in sessions && sessions[token].owner == sender
    }

    /** Why a token is refused to a sender who does not own it. */
    ghost function Refusal(sender: Sender, token: Token): Error
      reads this
    {
      if !ownsSpool then InspectionUnavailable
      else if token in sessions then InspectionOwnerMismatch
      else if token in expired then
        if expired[token].owner == sender then InspectionExpired else InspectionOwnerMismatch
      else UnknownInspection
    }

    method Lookup(sender: Sender, token: Token, intact: bool) returns (r: LookupResult, now: int)
      requires Valid()
      modifies this`sessions, this`expired, this`disk, this`cleanupFailures
      ensures Valid()
      ensures ownsSpool == old(ownsSpool) && (!ownsSpool ==> disk == old(disk))
      ensures r.LookedUp? <==>
          && ownsSpool && token in old(sessions) && old(sessions)[token].expiresAt > now
          && old(sessions)[token].owner == sender
      ensures r.LookedUp? ==>
          && r.digest == old(sessions)[token].digest
          && r.state == (if old(sessions)[token].state == Complete && !intact then Failed
                         else old(sessions)[token].state)
          && sessions == Unexpired(old(sessions), now)[token := old(sessions)[token].(state := r.state)]
      ensures r.LookupFailed? ==> r.error == Refusal(sender, token)
      ensures r.LookupFailed? && ownsSpool ==> sessions == Unexpired(old(sessions), now)
    {
      if !ownsSpool {
        return LookupFailed(InspectionUnavailable), 0;
      }
      now := ExpireNow();
      if token !in sessions {
        return LookupFailed(Absent(sender, token)), now;
      }
      if sessions[token].owner != sender {
        return LookupFailed(InspectionOwnerMismatch), now;
      }
      if sessions[token].state == Complete && !intact {
        Fail(token);
      }
      r := LookedUp(sessions[token].state, sessions[token].digest);
    }

    /** The artifacts changed behind a complete session: it stays, failed and without files. */
    method Fail(token: Token)
      requires Valid() && token in sessions && sessions[token].state == Complete
      modifies this`sessions, this`disk, this`cleanupFailures
      ensures Valid() && sessions == old(sessions)[token := old(sessions)[token].(state := Failed)]
    {
      hide WithinQuota, Identified;
      Cleanup(token);
      RestatedIsFine(sessions, expired, begun, taken, token, Failed);
      assert OnDisk(sessions[token := sessions[token].(state := Failed)]) == OnDisk(sessions) - {token};
      sessions := sessions[token := sessions[token].(state := Failed)];
    }

    /** The hand-over: to the owner, of a complete, unexpired, revalidated session, always then,
        and only once, because the session is gone afterwards and its directory belongs to the
        lease. `intact` is the revalidation, `duplicated` whether the descriptors could be. */
    method TakeForInstall(sender: Sender, token: Token, expectedDigest: string, intact: bool, duplicated: bool)
      returns (r: TakeResult, now: int)
      requires Valid()
      modifies this
      ensures Valid()
      ensures ownsSpool == old(ownsSpool) && timeToLive == old(timeToLive) && (!ownsSpool ==> disk == old(disk))
      ensures r.Taken? <==>
          && ownsSpool && token in old(sessions) && old(sessions)[token].expiresAt > now
          && old(sessions)[token].owner == sender && old(sessions)[token].state == Complete
          && expectedDigest == old(sessions)[token].digest && intact && duplicated
      ensures r.Taken? ==>
          && r.digest == expectedDigest == old(sessions)[token].digest
          && old(sessions)[token].serial !in old(taken) && taken == old(taken) + {old(sessions)[token].serial}
          && leases == old(leases) + {token} && sessions == Unexpired(old(sessions), now) - {token}
      ensures !r.Taken? ==> taken == old(taken) && leases == old(leases)
      ensures r.TakeFailed? ==>
          r.error ==
            if !(ownsSpool && token in old(sessions) && old(sessions)[token].expiresAt > now
                 && old(sessions)[token].owner == sender) then Refusal(sender, token)
            else if old(sessions)[token].digest != expectedDigest then ArchiveDigestMismatch
            else InspectionUnavailable
      ensures r.TakeFailed? && ownsSpool ==>
          sessions == if token in old(sessions) && old(sessions)[token].owner == sender
                         && old(sessions)[token].digest == expectedDigest && old(sessions)[token].state == Complete
                         && !intact then Unexpired(old(sessions), now) - {token}
                      else Unexpired(old(sessions), now)
    {
      hide WithinQuota, Identified, Housed, Kept, Buried, Remembered;
      now := 0;
      if !ownsSpool {
        return TakeFailed(InspectionUnavailable), now;
      }
      now := ExpireNow();
      if token !in sessions {
        return TakeFailed(Absent(sender, token)), now;
      }
      if sessions[token].owner != sender {
        return TakeFailed(InspectionOwnerMismatch), now;
      }
      r := Claim(token, expectedDigest, intact, duplicated);
    }

    /** What the owner of a session may be handed. */
    method Claim(token: Token, expectedDigest: string, intact: bool, duplicated: bool) returns (r: TakeResult)
      requires Valid() && token in sessions
      modifies this`sessions, this`leases, this`taken, this`disk, this`cleanupFailures
      ensures Valid() && (!ownsSpool ==> disk == old(disk))
      ensures r.Taken? <==>
          && old(sessions)[token].state == Complete && expectedDigest == old(sessions)[token].digest
          && intact && duplicated
      ensures r.Taken? ==>
          && r.digest == expectedDigest && old(sessions)[token].serial !in old(taken)
          && taken == old(taken) + {old(sessions)[token].serial} && leases == old(leases) + {token}
      ensures !r.Taken? ==> taken == old(taken) && leases == old(leases)
      ensures r.TakeFailed? ==>
          r.error == if old(sessions)[token].digest != expectedDigest then ArchiveDigestMismatch
                     else InspectionUnavailable
      ensures sessions == if old(sessions)[token].digest == expectedDigest && old(sessions)[token].state == Complete
                             && (!intact || duplicated) then old(sessions) - {token}
                          else old(sessions)
    {
      hide WithinQuota, Housed;
      var s := sessions[token];
      if expectedDigest != s.digest {
        return TakeFailed(ArchiveDigestMismatch);
      }
      if s.state != Complete {
        return TakeFailed(InspectionUnavailable);
      }
      if !intact {
        Forget(token);
        return TakeFailed(InspectionUnavailable);
      }
      if !duplicated {
        return TakeFailed(InspectionUnavailable);
      }
      HandOver(token);
      r := Taken(s.digest);
    }

    method HandOver(token: Token)
      requires Valid() && token in sessions && sessions[token].state == Complete
      modifies this`sessions, this`leases, this`taken
      ensures Valid() && sessions == old(sessions) - {token} && leases == old(leases) + {token}
      ensures taken == old(taken) + {old(sessions)[token].serial}
    {
      hide WithinQuota, Identified, Housed;
      WithoutIsFine(sessions, expired, begun, taken, token);
      HandedOutIsIdentified(sessions, begun, taken, token);
      HandedOutIsHoused(sessions, leases, disk, cleanupFailures, token);
      leases, taken := leases + {token}, taken + {sessions[token].serial};
      sessions := sessions - {token};
    }

    /** The end of an artifact lease. */
    method ReleaseArtifact(token: Token)
      requires Valid() && token in leases
      modifies this`leases, this`disk, this`cleanupFailures
      ensures Valid() && leases == old(leases) - {token}
    {
      Cleanup(token);
      leases := leases - {token};
    }

    method Cancel(sender: Sender, token: Token) returns (error: Option<Error>, now: int)
      requires Valid()
      modifies this`sessions, this`expired, this`disk, this`cleanupFailures
      ensures Valid()
      ensures ownsSpool == old(ownsSpool) && (!ownsSpool ==> disk == old(disk))
      ensures error.None? <==>
          && ownsSpool && token in old(sessions) && old(sessions)[token].expiresAt > now
          && old(sessions)[token].owner == sender
      ensures error.Some? ==> error.value == Refusal(sender, token)
      ensures ownsSpool ==>
          sessions == if error.None? then Unexpired(old(sessions), now) - {token} else Unexpired(old(sessions), now)
    {
      if !ownsSpool {
        return Some(InspectionUnavailable), 0;
      }
      now := ExpireNow();
      if token !in sessions {
        return Some(Absent(sender, token)), now;
      }
      if sessions[token].owner != sender {
        return Some(InspectionOwnerMismatch), now;
      }
      Forget(token);
      error := None;
    }

    method CancelAllForSender(sender: Sender)
      requires Valid()
      modifies this`sessions, this`disk, this`cleanupFailures
      ensures Valid()
      ensures ownsSpool == old(ownsSpool) && (!ownsSpool ==> disk == old(disk))
      ensures ownsSpool ==>
          sessions == map t | t in old(sessions) && old(sessions)[t].owner != sender :: old(sessions)[t]
    {
      hide WithinQuota, Identified, Housed;
      if !ownsSpool {
        return;
      }
      var todo := sessions.Keys;
      while todo != {}
        invariant Valid() && todo <= sessions.Keys <= old(sessions).Keys
        invariant forall t | t in sessions :: sessions[t] == old(sessions)[t]
        invariant forall t | t in old(sessions) && t !in todo :: t in sessions <==> old(sessions)[t].owner != sender
      {
        var t :| t in todo;
        todo := todo - {t};
        if sessions[t].owner == sender {
          Forget(t);
        }
      }
    }

    /** Any run of calls, completions, ticks and lease ends: within every quota, with exactly
        the directories that are needed while clean-up works, and no session handed out twice. */
    method Serve(steps: nat)
      requires Valid()
      modifies this
      ensures Valid()
      ensures !old(ownsSpool) ==> disk == old(disk) && sessions == map[]
    {
      for i := 0 to steps
        invariant Valid() && ownsSpool == old(ownsSpool) && (!ownsSpool ==> disk == old(disk))
      {
        var choice: int := *;
        var sender, token, digest: string := *, *, *;
        var a, b: bool := *, *;
        if choice == 0 {
          var staging: Staging := *;
          var _, _ := Begin(sender, a, b, staging);
        } else if choice == 1 {
          var clock: int := *;
          LauncherFinished(token, Outcome(a, b, clock));
        } else if choice == 2 {
          var _, _ := Lookup(sender, token, a);
        } else if choice == 3 {
          var _, _ := TakeForInstall(sender, token, digest, a, b);
        } else if choice == 4 {
          var _, _ := Cancel(sender, token);
        } else if choice == 5 {
          CancelAllForSender(sender);
        } else if choice == 6 {
          if token in leases {
            ReleaseArtifact(token);
          }
        } else {
          var _ := ExpireNow();
        }
      }
    }
  }
}

/** The systemd launcher's bookkeeping: pending starts by token, an index of job paths, and
    replies, signals and cancellations in any order. */
module InspectorLauncher {
  import opened Options

  type Token = string
  type Path = string

  datatype Pending = Pending(unitName: string, jobPath: Path, startSubmitted: bool)
  datatype Subscription = NotStarted | Awaiting | Ready | Failed

  function UnitName(token: Token): string {
    "hyprshelld-component-inspect-" + token + ".service"
  }

  lemma UnitNamesDiffer(a: Token, b: Token)
    ensures UnitName(a) == UnitName(b) ==> a == b
    ensures UnitName(a) == "hyprshelld-component-inspect-" + a + ".service"
  {
    var prefix, suffix := "hyprshelld-component-inspect-", ".service";
    if UnitName(a) == UnitName(b) {
      assert |UnitName(a)| == |prefix| + |a| + |suffix| && |UnitName(b)| == |prefix| + |b| + |suffix|;
      assert UnitName(a)[|prefix|..|prefix| + |a|] == a;
      assert UnitName(b)[|prefix|..|prefix| + |b|] == b;
    }
  }

  // ---- What callers see ----

  datatype Event = Accepted(token: Token) | Completed(token: Token) | Cancelled(token: Token)

  /** The starts that were accepted and have not ended, if every event came in its turn. */
  function Live(log: seq<Event>): Option<set<Token>> {
    if log == [] then Some({})
    else
      var before, last := Live(log[..|log| - 1]), log[|log| - 1];
      if before.None? then None
      else match last
        case Accepted(t) => if t in before.value then None else Some(before.value + {t})
        case Completed(t) => if t in before.value then Some(before.value - {t}) else None
        case Cancelled(t) => if t in before.value then Some(before.value - {t}) else None
  }

  lemma LiveAppend(log: seq<Event>, e: Event)
    ensures Live(log + [e]) == (
      if Live(log).None? then None
      else match e
        case Accepted(t) => if t in Live(log).value then None else Some(Live(log).value + {t})
        case Completed(t) => if t in Live(log).value then Some(Live(log).value - {t}) else None
        case Cancelled(t) => if t in Live(log).value then Some(Live(log).value - {t}) else None)
  {
    assert (log + [e])[..|log|] == log;
  }

  lemma {:induction false} LivePrefix(log: seq<Event>, n: nat)
    requires Live(log).Some? && n <= |log|
    ensures Live(log[..n]).Some?
    decreases |log| - n
  {
    if n == |log| {
      assert log[..n] == log;
    } else {
      LivePrefix(log, n + 1);
      assert log[..n + 1][..n] == log[..n];
    }
  }

  ghost predicate Ends(e: Event, t: Token) {
    e == Completed(t) || e == Cancelled(t)
  }

  ghost predicate AcceptedBetween(log: seq<Event>, i: nat, j: nat, t: Token)
    requires j <= |log|
  {
    exists k :: i < k < j && log[k] == Accepted(t)
  }

  lemma {:induction false} StaysEnded(log: seq<Event>, i: nat, j: nat, t: Token)
    requires Live(log).Some? && i < j <= |log| && Ends(log[i], t) && !AcceptedBetween(log, i, j, t)
    ensures Live(log[..j]).Some? && t !in Live(log[..j]).value
    decreases j
  {
    LivePrefix(log, j);
    LivePrefix(log, j - 1);
    assert log[..j][..j - 1] == log[..j - 1];
    if j > i + 1 {
      StaysEnded(log, i, j - 1, t);
    }
  }

  /** An accepted start ends once: no second completion, none after a cancellation. */
  lemma EndsOnce(log: seq<Event>, i: nat, j: nat, t: Token)
    requires Live(log).Some? && i < j < |log| && Ends(log[i], t) && Ends(log[j], t)
    ensures AcceptedBetween(log, i, j, t)
  {
    LivePrefix(log, j + 1);
    assert log[..j + 1][..j] == log[..j];
    if !AcceptedBetween(log, i, j, t) {
      StaysEnded(log, i, j, t);
    }
  }

  lemma {:induction false} LiveWasAccepted(log: seq<Event>, n: nat, t: Token)
    requires Live(log).Some? && n <= |log| && Live(log[..n]).Some? && t in Live(log[..n]).value
    ensures exists k :: 0 <= k < n && log[k] == Accepted(t) && forall m | k < m < n :: !Ends(log[m], t)
  {
    LivePrefix(log, n - 1);
    assert log[..n][..n - 1] == log[..n - 1];
    if log[n - 1] != Accepted(t) {
      LiveWasAccepted(log, n - 1, t);
      var k :| 0 <= k < n - 1 && log[k] == Accepted(t) && forall m | k < m < n - 1 :: !Ends(log[m], t);
      assert !Ends(log[n - 1], t);
    }
  }

  /** What completes or is cancelled was accepted before and had not ended since. */
  lemma EndsWereAccepted(log: seq<Event>, j: nat, t: Token)
    requires Live(log).Some? && j < |log| && Ends(log[j], t)
    ensures exists k :: 0 <= k < j && log[k] == Accepted(t) && forall m | k < m < j :: !Ends(log[m], t)
  {
    LivePrefix(log, j + 1);
    LivePrefix(log, j);
    assert log[..j + 1][..j] == log[..j];
    LiveWasAccepted(log, j, t);
  }

  /** The starts when those of `done` have been submitted. */
  ghost function Submitted(pending: map<Token, Pending>, done: set<Token>): map<Token, Pending> {
    map t | t in pending :: if t in done then pending[t].(startSubmitted := true) else pending[t]
  }

  ghost function Unsubmitted(pending: map<Token, Pending>, among: set<Token>): set<Token> {
    set t | t in pending && t in among && !pending[t].startSubmitted
  }

  lemma NoneSubmitted(pending: map<Token, Pending>)
    ensures Submitted(pending, {}) == pending && Unsubmitted(pending, {}) == {}
  {
  }

  lemma OneMoreSubmitted(pending: map<Token, Pending>, done: set<Token>, t: Token)
    requires t in pending && t !in done
    ensures t in Submitted(pending, done) && Submitted(pending, done)[t] == pending[t]
    ensures Submitted(pending, done + {t}) == Submitted(pending, done)[t := pending[t].(startSubmitted := true)]
    ensures pending[t].startSubmitted ==>
        && Submitted(pending, done + {t}) == Submitted(pending, done)
        && Unsubmitted(pending, done + {t}) == Unsubmitted(pending, done)
    ensures !pending[t].startSubmitted ==>
        multiset(Unsubmitted(pending, done + {t})) == multiset(Unsubmitted(pending, done)) + multiset{t}
  {
    if !pending[t].startSubmitted {
      assert Unsubmitted(pending, done + {t}) == Unsubmitted(pending, done) + {t};
    } else {
      assert Unsubmitted(pending, done + {t}) == Unsubmitted(pending, done);
    }
  }

  lemma NothingToSubmit(pending: map<Token, Pending>)
    requires pending == map[]
    ensures Submitted(pending, pending.Keys) == map[] && multiset(Unsubmitted(pending, pending.Keys)) == multiset{}
  {
  }

  lemma AllAreSubmitted(pending: map<Token, Pending>)
    ensures forall t | t in Submitted(pending, pending.Keys) :: Submitted(pending, pending.Keys)[t].startSubmitted
  {
  }

  /** The start was completed or cancelled since. */
  ghost predicate EndedSince(before: seq<Event>, after: seq<Event>, t: Token) {
    before <= after && exists i :: |before| <= i < |after| && Ends(after[i], t)
  }

  /** What was live and no longer is has ended since. */
  lemma {:induction false} GoneWasEnded(before: seq<Event>, after: seq<Event>, t: Token)
    requires before < after && Live(before).Some? && Live(after).Some?
    requires t in Live(before).value && t !in Live(after).value
    ensures EndedSince(before, after, t)
    decreases |after|
  {
    var shorter := after[..|after| - 1];
    LivePrefix(after, |after| - 1);
    if t in Live(shorter).value {
      assert Ends(after[|after| - 1], t);
    } else {
      assert shorter != before;
      GoneWasEnded(before, shorter, t);
      var i :| |before| <= i < |shorter| && Ends(shorter[i], t);
      assert Ends(after[i], t);
    }
  }

  // ---- The launcher ----

  /** The job-path index and the pending starts name each other. */
  ghost predicate InverseMaps(pending: map<Token, Pending>, index: map<Path, Token>) {
    && (forall p | p in index :: p != "" && index[p] in pending && pending[index[p]].jobPath == p)
    && (forall t | t in pending && pending[t].jobPath != "" ::
          pending[t].jobPath in index && index[pending[t].jobPath] == t)
  }

  ghost predicate OwnPath(pending: map<Token, Pending>, index: map<Path, Token>, token: Token, path: Path)
    requires token in pending
  {
    pending[token].jobPath in {"", path} && (path in index ==> index[path] == token)
  }

  /** Recording a job path keeps the maps inverse exactly when the path is no other start's
      and this start had no other path. */
  lemma RecordingIsInverse(pending: map<Token, Pending>, index: map<Path, Token>, token: Token, path: Path)
    requires InverseMaps(pending, index) && token in pending && path != ""
    ensures InverseMaps(pending[token := pending[token].(jobPath := path)], index[path := token])
        <==> OwnPath(pending, index, token, path)
  {
    var pending', index' := pending[token := pending[token].(jobPath := path)], index[path := token];
    if pending[token].jobPath != "" && pending[token].jobPath != path {
      assert pending[token].jobPath in index';
    }
    if path in index && index[path] != token {
      assert pending'[index[path]].jobPath == path && index'[path] == token;
    }
  }

  class Launcher {
    /** Whether callers offer a token again only when no reply for it is outstanding. */
    const repliesFirst: bool
    var subscription: Subscription
    var pendingByToken: map<Token, Pending>
    var tokenByJobPath: map<Path, Token>
    ghost var log: seq<Event>
    ghost var stopped: seq<string>
    /** Tokens of start replies that have not arrived; one entry per call in flight. */
    var inFlight: multiset<Token>

    /** Callers' view and own view agree. */
    ghost predicate Valid()
      reads this
    {
      && Live(log).Some? && Live(log).value == pendingByToken.Keys
      && (forall t | t in pendingByToken :: pendingByToken[t].unitName == UnitName(t))
      && (forall t | t in pendingByToken && pendingByToken[t].startSubmitted :: subscription == Ready)
      && (forall t | t in pendingByToken && !pendingByToken[t].startSubmitted :: pendingByToken[t].jobPath == "")
      && (forall t :: inFlight[t] > 0 ==> subscription == Ready)
    }

    /** Between events: nothing waits for a subscription that is already decided. */
    ghost predicate Settled()
      reads this
    {
      && (subscription == Ready ==> forall t | t in pendingByToken :: pendingByToken[t].startSubmitted)
      && (subscription in {NotStarted, Failed} ==> pendingByToken == map[])
    }

    ghost predicate Inverse()
      reads this
    {
      InverseMaps(pendingByToken, tokenByJobPath)
    }

    /** One reply at most is awaited for a token, and none once its job path is known. */
    ghost predicate Single()
      reads this
    {
      && (forall t :: inFlight[t] <= 1)
      && (forall t | t in pendingByToken && (pendingByToken[t].jobPath != "" || !pendingByToken[t].startSubmitted) ::
            inFlight[t] == 0)
    }

    constructor (repliesFirst: bool)
      ensures this.repliesFirst == repliesFirst
      ensures Valid() && Settled() && Inverse() && Single() && log == []
      ensures subscription == NotStarted && pendingByToken == map[] && tokenByJobPath == map[] && inFlight == multiset{}
    {
      this.repliesFirst := repliesFirst;
      subscription, pendingByToken, tokenByJobPath := NotStarted, map[], map[];
      log, stopped, inFlight := [], [], multiset{};
    }

    ghost method Record(e: Event)
      modifies this`log
      ensures log == old(log) + [e]
    {
      log := log + [e];
      LiveAppend(old(log), e);
    }

    method Start(token: Token, connected: bool, wellFormed: bool) returns (accepted: bool)
      requires Valid()
      modifies this`subscription, this`pendingByToken, this`log, this`inFlight
      ensures Valid() && (old(Inverse()) ==> Inverse()) && (old(Settled()) ==> Settled())
      ensures old(Single()) && old(inFlight)[token] == 0 ==> Single()
      ensures accepted <==> connected && wellFormed && token !in old(pendingByToken) && old(subscription) != Failed
      ensures log == old(log) + (if accepted then [Accepted(token)] else [])
      ensures !accepted ==>
          pendingByToken == old(pendingByToken) && subscription == old(subscription) && inFlight == old(inFlight)
      ensures accepted ==>
          pendingByToken == old(pendingByToken)[token := Pending(UnitName(token), "", old(subscription) == Ready)]
      ensures accepted ==>
          inFlight == old(inFlight) + (if old(subscription) == Ready then multiset{token} else multiset{})
      ensures accepted && old(subscription) == NotStarted ==> subscription == Awaiting
      ensures old(subscription) in {Ready, Failed} ==> subscription == old(subscription)
    {
      hide InverseMaps, Single, Live;
      accepted := connected && wellFormed && token !in pendingByToken && subscription != Failed;
      if accepted {
        Insert(token);
        if subscription == Ready {
          SubmitStart(token);
        } else {
          EnsureSubscribed();
        }
      }
    }

    method EnsureSubscribed()
      requires Valid() && subscription in {NotStarted, Awaiting}
      modifies this`subscription
      ensures Valid() && Settled() && (old(Inverse()) ==> Inverse()) && (old(Single()) ==> Single())
      ensures subscription == Awaiting
    {
      if subscription == NotStarted {
        subscription := Awaiting;
      }
    }

    method Insert(token: Token)
      requires Valid() && token !in pendingByToken && subscription != Failed
      modifies this`pendingByToken, this`log
      ensures Valid() && (old(Inverse()) ==> Inverse())
      ensures old(Single()) && inFlight[token] == 0 ==> Single()
      ensures log == old(log) + [Accepted(token)]
      ensures pendingByToken == old(pendingByToken)[token := Pending(UnitName(token), "", false)]
    {
      LiveAppend(log, Accepted(token));
      pendingByToken := pendingByToken[token := Pending(UnitName(token), "", false)];
      Record(Accepted(token));
    }

    method SubmitStart(token: Token)
      requires Valid() && subscription == Ready
      modifies this`pendingByToken, this`inFlight
      ensures Valid() && (old(Inverse()) ==> Inverse()) && (old(Single()) ==> Single())
      ensures pendingByToken ==
          if token in old(pendingByToken) then
            old(pendingByToken)[token := old(pendingByToken)[token].(startSubmitted := true)]
          else old(pendingByToken)
      ensures
        var submits := token in old(pendingByToken) && !old(pendingByToken)[token].startSubmitted;
        inFlight == old(inFlight) + (if submits then multiset{token} else multiset{})
    {
      if token !in pendingByToken || pendingByToken[token].startSubmitted {
        return;
      }
      pendingByToken := pendingByToken[token := pendingByToken[token].(startSubmitted := true)];
      inFlight := inFlight + multiset{token};
    }

    /** The index may still lack, and only lack, the job of `t`. */
    ghost predicate InverseExcept(t: Token)
      reads this
    {
      && (forall p | p in tokenByJobPath ::
            p != "" && tokenByJobPath[p] in pendingByToken && pendingByToken[tokenByJobPath[p]].jobPath == p)
      && (t in pendingByToken && pendingByToken[t].jobPath in tokenByJobPath ==>
            tokenByJobPath[pendingByToken[t].jobPath] == t)
      && (forall u | u in pendingByToken && u != t && pendingByToken[u].jobPath != "" ::
            pendingByToken[u].jobPath in tokenByJobPath && tokenByJobPath[pendingByToken[u].jobPath] == u)
    }

    /** What is remembered of a start, forgotten. */
    method Erase(token: Token, e: Event)
      requires Valid() && token in pendingByToken && Ends(e, token)
      modifies this`pendingByToken, this`tokenByJobPath, this`log
      ensures Valid() && (old(InverseExcept(token)) ==> Inverse()) && (old(Single()) ==> Single())
      ensures pendingByToken == old(pendingByToken) - {token} && log == old(log) + [e]
      ensures tokenByJobPath == old(tokenByJobPath)
        - (if old(pendingByToken)[token].jobPath == "" then {} else {old(pendingByToken)[token].jobPath})
    {
      LiveAppend(log, e);
      if pendingByToken[token].jobPath != "" {
        tokenByJobPath := tokenByJobPath - {pendingByToken[token].jobPath};
      }
      pendingByToken := pendingByToken - {token};
      Record(e);
    }

    method Cancel(token: Token)
      requires Valid()
      modifies this`pendingByToken, this`tokenByJobPath, this`log, this`stopped
      ensures Valid() && (old(Inverse()) ==> Inverse()) && (old(Single()) ==> Single())
      ensures old(Settled()) ==> Settled()
      ensures pendingByToken == old(pendingByToken) - {token}
      ensures log == old(log) + (if token in old(pendingByToken) then [Cancelled(token)] else [])
      ensures tokenByJobPath == old(tokenByJobPath) -
          (if token in old(pendingByToken) && old(pendingByToken)[token].jobPath != "" then
             {old(pendingByToken)[token].jobPath} else {})
      ensures stopped == old(stopped) +
          (if token in old(pendingByToken) && old(pendingByToken)[token].startSubmitted then [UnitName(token)] else [])
    {
      if token in pendingByToken {
        var submitted, unit := pendingByToken[token].startSubmitted, pendingByToken[token].unitName;
        Erase(token, Cancelled(token));
        if submitted {
          stopped := stopped + [unit];
        }
      }
    }

    /** A completion callback may start and cancel whatever it likes. */
    method Callback()
      requires Valid()
      modifies this
      ensures Valid() && (old(Inverse()) ==> Inverse()) && (old(Single()) && repliesFirst ==> Single())
      ensures (old(Settled()) ==> Settled()) && old(log) <= log
      ensures old(subscription) in {Ready, Failed} ==> subscription == old(subscription)
      ensures old(subscription) == Failed ==> pendingByToken.Keys <= old(pendingByToken).Keys
    {
      hide InverseMaps, Single, Live, Settled;
      var calls: nat :| 0 <= calls;
      for i := 0 to calls
        invariant Valid() && (old(Inverse()) ==> Inverse()) && (old(Single()) && repliesFirst ==> Single())
        invariant (old(Settled()) ==> Settled()) && old(log) <= log
        invariant old(subscription) in {Ready, Failed} ==> subscription == old(subscription)
        invariant old(subscription) == Failed ==> pendingByToken.Keys <= old(pendingByToken).Keys
      {
        var starting, connected, wellFormed: bool := *, *, *;
        var token: Token := *;
        if !starting {
          Cancel(token);
        } else if !repliesFirst || token !in inFlight {
          var _ := Start(token, connected, wellFormed);
        }
      }
    }

    method Complete(token: Token)
      requires Valid()
      modifies this
      ensures Valid()
      ensures old(InverseExcept(token)) && (token in old(pendingByToken) || old(Inverse())) ==> Inverse()
      ensures old(Single()) && repliesFirst ==> Single()
      ensures old(Settled()) ==> Settled()
      ensures token in old(pendingByToken) ==> old(log) + [Completed(token)] <= log
      ensures token !in old(pendingByToken) ==>
          && log == old(log) && pendingByToken == old(pendingByToken) && tokenByJobPath == old(tokenByJobPath)
          && inFlight == old(inFlight) && subscription == old(subscription)
      ensures old(log) <= log
      ensures old(subscription) in {Ready, Failed} ==> subscription == old(subscription)
      ensures old(subscription) == Failed ==> pendingByToken.Keys <= old(pendingByToken).Keys - {token}
    {
      hide InverseMaps, InverseExcept, Single, Live;
      if token in pendingByToken {
        Erase(token, Completed(token));
        Callback();
      }
    }

    /** The reply to `StartTransientUnit`. Recording the job path keeps the index inverse
        exactly when the path is no other start's and this start had none before. */
    method StartReply(token: Token, wellFormed: bool, jobPath: Path)
      requires Valid() && Settled() && inFlight[token] > 0
      modifies this
      ensures Valid() && Settled()
      ensures old(Single()) && repliesFirst ==> Single()
      ensures var recorded := token in old(pendingByToken) && wellFormed && jobPath != "";
        old(Inverse()) ==> (Inverse() <==> (recorded ==> old(OwnJob(token, jobPath))))
      ensures token in old(pendingByToken) && (!wellFormed || jobPath == "") ==> old(log) + [Completed(token)] <= log
      ensures token !in old(pendingByToken) || (wellFormed && jobPath != "") ==>
          log == old(log) && inFlight == old(inFlight) - multiset{token}
      ensures token !in old(pendingByToken) ==>
          pendingByToken == old(pendingByToken) && tokenByJobPath == old(tokenByJobPath)
      ensures token in old(pendingByToken) && wellFormed && jobPath != "" ==>
          && pendingByToken == old(pendingByToken)[token := old(pendingByToken)[token].(jobPath := jobPath)]
          && tokenByJobPath == old(tokenByJobPath)[jobPath := token]
    {
      hide InverseMaps, Single, Live;
      Forget(token);
      if token !in pendingByToken {
        return;
      }
      ExceptNone(token);
      if !wellFormed || jobPath == "" {
        Complete(token);
        return;
      }
      RecordJob(token, jobPath);
    }

    method RecordJob(token: Token, jobPath: Path)
      requires Valid() && token in pendingByToken && pendingByToken[token].startSubmitted && jobPath != ""
      modifies this`pendingByToken, this`tokenByJobPath
      ensures Valid() && (old(Settled()) ==> Settled())
      ensures old(Single()) && inFlight[token] == 0 ==> Single()
      ensures old(Inverse()) ==> (Inverse() <==> old(OwnJob(token, jobPath)))
      ensures pendingByToken == old(pendingByToken)[token := old(pendingByToken)[token].(jobPath := jobPath)]
      ensures tokenByJobPath == old(tokenByJobPath)[jobPath := token]
    {
      hide InverseMaps, Live, UnitName, OwnPath;
      if InverseMaps(pendingByToken, tokenByJobPath) {
        RecordingIsInverse(pendingByToken, tokenByJobPath, token, jobPath);
      }
      pendingByToken := pendingByToken[token := pendingByToken[token].(jobPath := jobPath)];
      tokenByJobPath := tokenByJobPath[jobPath := token];
    }

    method Forget(token: Token)
      requires Valid() && inFlight[token] > 0
      modifies this`inFlight
      ensures Valid() && (old(Settled()) ==> Settled())
      ensures inFlight == old(inFlight) - multiset{token}
      ensures old(Single()) ==> Single() && inFlight[token] == 0
      ensures Inverse() == old(Inverse()) && subscription == Ready
    {
      inFlight := inFlight - multiset{token};
    }

    ghost predicate OwnJob(token: Token, jobPath: Path)
      reads this
    {
      token in pendingByToken ==> OwnPath(pendingByToken, tokenByJobPath, token, jobPath)
    }

    /** The reply to `Subscribe` decides every start that was waiting for it. */
    method SubscribeReply(ok: bool)
      requires Valid() && Settled() && subscription == Awaiting
      modifies this
      ensures Valid() && Settled() && (old(Inverse()) ==> Inverse()) && (old(Single()) && repliesFirst ==> Single())
      ensures subscription == if ok then Ready else Failed
      ensures ok ==> log == old(log) && tokenByJobPath == old(tokenByJobPath)
      ensures ok ==>
          && pendingByToken == Submitted(old(pendingByToken), old(pendingByToken).Keys)
          && inFlight == old(inFlight) + multiset(Unsubmitted(old(pendingByToken), old(pendingByToken).Keys))
      ensures !ok ==> forall t | t in old(pendingByToken) :: EndedSince(old(log), log, t)
    {
      if ok {
        subscription := Ready;
        SubmitAll();
      } else {
        subscription := Failed;
        FailAll();
      }
    }

    /** One turn of the loop below: `done` are the starts it has gone through. */
    method SubmitNext(token: Token, ghost before: map<Token, Pending>, ghost done: set<Token>,
                      ghost awaited: multiset<Token>)
      requires Valid() && subscription == Ready
      requires pendingByToken == Submitted(before, done) && token in before && token !in done
      requires inFlight == awaited + multiset(Unsubmitted(before, done))
      modifies this`pendingByToken, this`inFlight
      ensures Valid() && (old(Inverse()) ==> Inverse()) && (old(Single()) ==> Single())
      ensures pendingByToken == Submitted(before, done + {token})
      ensures inFlight == awaited + multiset(Unsubmitted(before, done + {token}))
    {
      hide InverseMaps, Single, Live, Submitted, Unsubmitted;
      OneMoreSubmitted(before, done, token);
      SubmitStart(token);
    }

    method SubmitAll()
      requires Valid() && subscription == Ready
      modifies this`pendingByToken, this`inFlight
      ensures Valid() && Settled() && (old(Inverse()) ==> Inverse()) && (old(Single()) ==> Single())
      ensures pendingByToken == Submitted(old(pendingByToken), old(pendingByToken).Keys)
      ensures inFlight == old(inFlight) + multiset(Unsubmitted(old(pendingByToken), old(pendingByToken).Keys))
    {
      hide InverseMaps, Single, Live, Submitted, Unsubmitted;
      ghost var before, done, awaited := pendingByToken, {}, inFlight;
      var todo := pendingByToken.Keys;
      NoneSubmitted(before);
      while todo != {}
        invariant Valid() && (old(Inverse()) ==> Inverse()) && (old(Single()) ==> Single())
        invariant todo <= before.Keys && done == before.Keys - todo
        invariant pendingByToken == Submitted(before, done)
        invariant inFlight == awaited + multiset(Unsubmitted(before, done))
      {
        var t :| t in todo;
        SubmitNext(t, before, done, awaited);
        todo, done := todo - {t}, done + {t};
      }
      assert done == before.Keys;
      AllAreSubmitted(before);
    }

    method FailAll()
      requires Valid() && subscription == Failed
      modifies this
      ensures Valid() && Settled() && (old(Inverse()) ==> Inverse()) && (old(Single()) && repliesFirst ==> Single())
      ensures subscription == Failed && old(log) <= log
      ensures forall t | t in old(pendingByToken) :: EndedSince(old(log), log, t)
    {
      hide InverseMaps, InverseExcept, Single, Live;
      var todo := pendingByToken.Keys;
      while todo != {}
        invariant Valid() && (old(Inverse()) ==> Inverse()) && (old(Single()) && repliesFirst ==> Single())
        invariant subscription == Failed && pendingByToken.Keys <= todo && old(log) <= log
      {
        var t :| t in todo;
        todo := todo - {t};
        ExceptNone(t);
        Complete(t);
      }
      forall t | t in old(pendingByToken)
        ensures EndedSince(old(log), log, t)
      {
        assert old(log) != log;
        GoneWasEnded(old(log), log, t);
      }
    }

    lemma ExceptNone(t: Token)
      ensures Inverse() ==> InverseExcept(t)
    {
    }

    /** `JobRemoved`, before or after the start reply: the unit's name closes the race. */
    method JobRemoved(jobPath: Path, unitName: string)
      requires Valid() && Settled()
      modifies this
      ensures Valid() && Settled() && (old(Inverse()) ==> Inverse())
      ensures old(Single()) && repliesFirst ==> Single()
      ensures forall t | t in old(pendingByToken)
          && (if jobPath in old(tokenByJobPath) then old(tokenByJobPath)[jobPath] == t else unitName == UnitName(t)) ::
          old(log) + [Completed(t)] <= log
      ensures jobPath !in old(tokenByJobPath) && (forall t | t in old(pendingByToken) :: unitName != UnitName(t)) ==>
          && log == old(log) && pendingByToken == old(pendingByToken) && tokenByJobPath == old(tokenByJobPath)
          && inFlight == old(inFlight) && subscription == old(subscription)
      ensures jobPath in old(tokenByJobPath) && old(tokenByJobPath)[jobPath] !in old(pendingByToken) ==>
          && log == old(log) && pendingByToken == old(pendingByToken)
          && tokenByJobPath == old(tokenByJobPath) - {jobPath}
    {
      var token: Option<Token> := None;
      if jobPath in tokenByJobPath {
        token := Some(tokenByJobPath[jobPath]);
        tokenByJobPath := tokenByJobPath - {jobPath};
      } else if t :| t in pendingByToken && pendingByToken[t].unitName == unitName {
        token := Some(t);
        OneUnitName(t, unitName);
      }
      if token.Some? {
        Complete(token.value);
      }
    }

    lemma OneUnitName(t: Token, unitName: string)
      requires Valid() && t in pendingByToken && pendingByToken[t].unitName == unitName
      ensures forall u | u in pendingByToken && unitName == UnitName(u) :: u == t
    {
      forall u | u in pendingByToken && unitName == UnitName(u)
        ensures u == t
      {
        UnitNamesDiffer(u, t);
      }
    }

    /** Any run in which systemd never gives one job path to two live starts, and no token is
        accepted while a reply for it is outstanding: the index stays inverse whatever the
        order of replies, signals, starts and cancellations. */
    method Serve(steps: nat)
      requires Valid() && Settled() && Inverse() && Single() && repliesFirst
      modifies this
      ensures Valid() && Settled() && Inverse() && Single()
    {
      hide InverseMaps, Single, Live;
      for i := 0 to steps
        invariant Valid() && Settled() && Inverse() && Single()
      {
        var choice: int := *;
        var token: Token, path: Path, unit: string := *, *, *;
        var a, b: bool := *, *;
        if choice == 0 && token !in inFlight {
          var _ := Start(token, a, b);
        } else if choice == 1 {
          Cancel(token);
        } else if choice == 2 && subscription == Awaiting {
          SubscribeReply(a);
        } else if choice == 3 {
          JobRemoved(path, unit);
        } else if choice == 4 && path !in tokenByJobPath {
          ReplyTo(token, a, path);
        }
      }
    }

    /** A reply that is really outstanding, with a job path of its own. */
    method ReplyTo(token: Token, wellFormed: bool, path: Path)
      requires Valid() && Settled() && Inverse() && Single() && repliesFirst && path !in tokenByJobPath
      modifies this
      ensures Valid() && Settled() && Inverse() && Single()
    {
      if token in inFlight {
        StartReply(token, wellFormed, path);
      }
    }
  }

  /** A launcher whose subscription was granted when no start was left. */
  method Subscribed(token: Token) returns (launcher: Launcher)
    ensures fresh(launcher) && launcher.Valid() && launcher.Settled() && launcher.Inverse()
    ensures launcher.subscription == Ready && launcher.pendingByToken == map[]
    ensures launcher.tokenByJobPath == map[] && launcher.inFlight == multiset{}
  {
    hide *;
    launcher := new Launcher(false);
    var accepted := launcher.Start(token, true, true);
    launcher.Cancel(token);
    assert launcher.pendingByToken == map[];
    NothingToSubmit(launcher.pendingByToken);
    launcher.SubscribeReply(true);
  }

  /** A token started again while the reply to its cancelled start is outstanding. */
  method Reoffer(token: Token) returns (launcher: Launcher)
    ensures fresh(launcher) && launcher.Valid() && launcher.Settled() && launcher.Inverse()
    ensures launcher.pendingByToken == map[token := Pending(UnitName(token), "", true)]
    ensures launcher.tokenByJobPath == map[] && launcher.inFlight == multiset{token, token}
  {
    hide *;
    launcher := Subscribed(token);
    var accepted := launcher.Start(token, true, true);
    launcher.Cancel(token);
    assert launcher.pendingByToken == map[];
    accepted := launcher.Start(token, true, true);
  }

  /** Without that rule a run may break the index: both replies arrive, and the first job path
      stays behind. */
  method ReofferedTokenBreaksIndex(token: Token, first: Path, second: Path) returns (launcher: Launcher)
    requires first != "" && second != "" && first != second
    ensures launcher.Valid() && launcher.Settled() && !launcher.Inverse()
  {
    hide Live, Ends, InverseMaps, UnitName;
    launcher := Reoffer(token);
    launcher.StartReply(token, true, first);
    launcher.StartReply(token, true, second);
  }
}

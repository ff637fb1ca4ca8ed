/** Start and Stop: the launchable asks runit's `sv` to restart or stop each
    of its services in turn. The supervisor is an oracle: `replies[i]` is its
    answer to the i-th request (None is success), and every request past the
    end of `replies` succeeds. */
module Supervision {
  import opened Types
  import opened FileSystems
  import opened Launchables
  import opened Discovery

  function Reply(replies: seq<Option<SvError>>, i: nat): Option<SvError> {
    if i < |replies| then replies[i] else None
  }

  /** The error a reply turns into. */
  function ReplyError(reply: Option<SvError>): (e: Option<Error>)
    ensures e.None? <==> reply.None?
  {
    match reply
    case None => None
    case Some(sv) => Some(Supervisor(sv))
  }

  /** How many of the first `n` replies, counted from `i`, are `tolerated`
      before the first one that is not. */
  function LeadingFrom(replies: seq<Option<SvError>>, tolerated: Option<SvError>, i: nat, n: nat): (k: nat)
    requires i <= n
    ensures i <= k <= n
    ensures forall j :: i <= j < k ==> Reply(replies, j) == tolerated
    ensures k < n ==> Reply(replies, k) != tolerated
    decreases n - i
  {
    if i == n || Reply(replies, i) != tolerated then i
    else LeadingFrom(replies, tolerated, i + 1, n)
  }

  function Leading(replies: seq<Option<SvError>>, tolerated: Option<SvError>, n: nat): (k: nat)
    ensures k <= n
    ensures forall j :: 0 <= j < k ==> Reply(replies, j) == tolerated
    ensures k < n ==> Reply(replies, k) != tolerated
  {
    LeadingFrom(replies, tolerated, 0, n)
  }

  function Services(execs: seq<Executable>): (s: seq<Service>)
    ensures |s| == |execs| && forall i :: 0 <= i < |execs| ==> s[i] == execs[i].service
  {
    seq(|execs|, i requires 0 <= i < |execs| => execs[i].service)
  }

  /** What a run over the services leaves behind: the error returned and the
      services a request was sent for, in order. */
  datatype Outcome = Outcome(err: Option<Error>, requested: seq<Service>)

  /** A walk over `execs` that moves on while the reply is `tolerated` and
      returns the first other reply. */
  function Walk(execs: seq<Executable>, replies: seq<Option<SvError>>, tolerated: Option<SvError>): Outcome {
    var k := Leading(replies, tolerated, |execs|);
    if k < |execs| then Outcome(ReplyError(Reply(replies, k)), Services(execs[..k + 1]))
    else Outcome(None, Services(execs))
  }

  /** Start: a discovery error is returned; otherwise a service whose reply is
      SuperviseOkMissing is passed over and any other reply, success
      included, ends the walk. */
  function StartOutcome(discovered: Result<seq<Executable>, Error>, replies: seq<Option<SvError>>): Outcome {
    match discovered
    case Err(e) => Outcome(Some(e), [])
    case Ok(execs) => Walk(execs, replies, Some(SuperviseOkMissing))
  }

  /** Stop: a discovery error is returned; otherwise the first failure of any
      kind ends the walk. */
  function StopOutcome(discovered: Result<seq<Executable>, Error>, replies: seq<Option<SvError>>): Outcome {
    match discovered
    case Err(e) => Outcome(Some(e), [])
    case Ok(execs) => Walk(execs, replies, None)
  }

  /** The loop shared by Start and Stop: one request per service, moving on
      while the reply is `tolerated`. */
  method RunWalk(execs: seq<Executable>, replies: seq<Option<SvError>>, tolerated: Option<SvError>)
    returns (err: Option<Error>, requested: seq<Service>)
    ensures Outcome(err, requested) == Walk(execs, replies, tolerated)
  {
    requested := [];
    for i := 0 to |execs|
      invariant requested == Services(execs[..i])
      invariant forall j :: 0 <= j < i ==> Reply(replies, j) == tolerated
    {
      var reply := Reply(replies, i);
      requested := requested + [execs[i].service];
      assert requested == Services(execs[..i + 1]);
      if reply != tolerated {
        assert Leading(replies, tolerated, |execs|) == i;
        return ReplyError(reply), requested;
      }
    }
    assert execs[..|execs|] == execs;
    return None, requested;
  }

  method Start(nodes: map<Path, Node>, hl: Launchable, runitRoot: Path, replies: seq<Option<SvError>>)
    returns (err: Option<Error>, restarted: seq<Service>)
    requires HasVersion(hl)
    ensures Outcome(err, restarted) == StartOutcome(Discover(nodes, hl, runitRoot), replies)
  {
    var discovered := Executables(nodes, hl, runitRoot);
    if discovered.Err? {
      return Some(discovered.error), [];
    }
    err, restarted := RunWalk(discovered.value, replies, Some(SuperviseOkMissing));
  }

  method Stop(nodes: map<Path, Node>, hl: Launchable, runitRoot: Path, replies: seq<Option<SvError>>)
    returns (err: Option<Error>, stopped: seq<Service>)
    requires HasVersion(hl)
    ensures Outcome(err, stopped) == StopOutcome(Discover(nodes, hl, runitRoot), replies)
  {
    var discovered := Executables(nodes, hl, runitRoot);
    if discovered.Err? {
      return Some(discovered.error), [];
    }
    err, stopped := RunWalk(discovered.value, replies, None);
  }

  /** The order of requests: they go to a prefix of the services, in order. */
  lemma {:induction false} WalkRequestsPrefix(execs: seq<Executable>, replies: seq<Option<SvError>>, tolerated: Option<SvError>)
    ensures var o := Walk(execs, replies, tolerated);
            |o.requested| <= |execs| && o.requested == Services(execs)[..|o.requested|]
  {
    var k := Leading(replies, tolerated, |execs|);
    if k < |execs| {
      assert Services(execs[..k + 1]) == Services(execs)[..k + 1];
    }
  }

  /** Start does not attempt every service, contrary to its documentation:
      the first service that restarts successfully ends the walk, so with two
      or more services and a successful first restart only the first one is
      restarted, and no error is reported. */
  lemma StartStopsAfterFirstSuccess(execs: seq<Executable>, replies: seq<Option<SvError>>)
    requires |execs| >= 2 && Reply(replies, 0) == None
    ensures StartOutcome(Ok(execs), replies) == Outcome(None, [execs[0].service])
    ensures |StartOutcome(Ok(execs), replies).requested| < |execs|
  {
    assert Leading(replies, Some(SuperviseOkMissing), |execs|) == 0;
    assert Services(execs[..1]) == [execs[0].service];
  }

  /** Start reaches every service exactly when all replies but the last are
      SuperviseOkMissing; it reports success exactly when the reply that ended
      the walk was a success, or when every reply was SuperviseOkMissing. */
  lemma {:induction false} StartReachesAll(execs: seq<Executable>, replies: seq<Option<SvError>>)
    requires |execs| > 0
    ensures var o := StartOutcome(Ok(execs), replies);
            o.requested == Services(execs) <==>
              forall j :: 0 <= j < |execs| - 1 ==> Reply(replies, j) == Some(SuperviseOkMissing)
    ensures var o := StartOutcome(Ok(execs), replies);
            var k := |o.requested| - 1;
            |o.requested| > 0 &&
            (forall j :: 0 <= j < k ==> Reply(replies, j) == Some(SuperviseOkMissing)) &&
            (o.err.None? <==> Reply(replies, k) == None || Reply(replies, k) == Some(SuperviseOkMissing))
  {
    var k := Leading(replies, Some(SuperviseOkMissing), |execs|);
    var o := StartOutcome(Ok(execs), replies);
    if k < |execs| {
      assert |o.requested| == k + 1;
      if k < |execs| - 1 {
        assert o.requested != Services(execs);
      }
    } else {
      assert Reply(replies, |execs| - 1) == Some(SuperviseOkMissing);
    }
  }

  /** Stop is fail-fast: it reports success exactly when every service
      stopped, and on a failure the failing service is the last one asked,
      with SuperviseOkMissing counted as a failure like any other. */
  lemma {:induction false} StopFailFast(execs: seq<Executable>, replies: seq<Option<SvError>>)
    ensures var o := StopOutcome(Ok(execs), replies);
            o.err.None? <==> o.requested == Services(execs) &&
                             forall j :: 0 <= j < |execs| ==> Reply(replies, j) == None
    ensures var o := StopOutcome(Ok(execs), replies);
            o.err.Some? ==>
              |o.requested| > 0 &&
              (forall j :: 0 <= j < |o.requested| - 1 ==> Reply(replies, j) == None) &&
              o.err == Some(Supervisor(Reply(replies, |o.requested| - 1).value))
  {
    var k := Leading(replies, None, |execs|);
    if k < |execs| {
      assert Reply(replies, k).Some?;
      assert |StopOutcome(Ok(execs), replies).requested| == k + 1;
    }
  }

  /** Discovery errors are returned by both, before any request. */
  lemma DiscoveryErrorFirst(e: Error, replies: seq<Option<SvError>>)
    ensures StartOutcome(Err(e), replies) == Outcome(Some(e), [])
    ensures StopOutcome(Err(e), replies) == Outcome(Some(e), [])
  {
  }
}

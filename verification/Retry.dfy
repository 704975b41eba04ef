/** The retry loop around every request to the backend. */
module Retry {
  import opened Wrappers
  import opened Values
  import opened ObjectStore
  import opened PoolSelectors
  import opened Rotation

  /** A request as the backend executes it. */
  type Request = Objects -> Outcome

  /** The exceptions after which an attempt may be repeated. */
  datatype Failure = Timeout | ConnectFailure | BackendError
  datatype Reply = Returned | Refused(error: Error) | Retriable(failure: Failure)

  /** One attempt as the rest of the world decides it: the objects that it finds when (and if) it arrives, whether
      the answer gets back, what the caller sees otherwise, and the state of the pools. */
  datatype Attempt = Attempt(objects: Objects, arrives: bool, answers: bool, failure: Failure,
                             blacklisted: seq<bool>, dice: nat)

  predicate TakesEffect(request: Request, a: Attempt)
  {
    a.arrives && request(a.objects).Done?
  }

  /** The objects that the attempt leaves behind. */
  function Leaves(request: Request, a: Attempt): Objects
  {
    if TakesEffect(request, a) then request(a.objects).objects else a.objects
  }

  function Answer(request: Request, a: Attempt): Reply
  {
    if !a.arrives || !a.answers then Retriable(a.failure)
    else
      match request(a.objects)
      case Done(_) => Returned
      case Failed(StoreError) => Retriable(BackendError)
      case Failed(error) => Refused(error)
  }

  // ---------- pools and pauses ----------

  datatype Policy = Policy(onTimeout: bool, onBackendError: bool)

  predicate Switches(policy: Policy, failure: Failure)
  {
    match failure
    case Timeout => policy.onTimeout
    case ConnectFailure => false
    case BackendError => policy.onBackendError
  }

  /** Where a selector stands: the last pool, and whether the next probe starts there. */
  datatype Position = Position(last: nat, fromLast: bool)

  function Standing(selector: NamespacePoolSelector): Position
    reads selector
  {
    Position(selector.lastIdx, selector.startFromLast)
  }

  function Moved(n: nat, p: Position, switch_: bool): Position
    requires p.last < n
  {
    if switch_ then Position(After(n, p.last), true) else p
  }

  function StartOf(p: Position, idx: nat): nat
  {
    if p.fromLast then p.last else idx
  }

  /** The pools, the one that the namespace hashes to, where the selector stands at first and when it switches. */
  datatype Plan = Plan(n: nat, idx: nat, first: Position, policy: Policy)

  ghost predicate Proper(plan: Plan, env: seq<Attempt>)
  {
    && plan.idx < plan.n && plan.first.last < plan.n
    && forall k :: 0 <= k < |env| ==> |env[k].blacklisted| == plan.n && env[k].dice < plan.n
  }

  /** The selector before attempt `k`, when the attempts before it were all retriable. */
  ghost function PositionAt(plan: Plan, request: Request, env: seq<Attempt>, k: nat): (p: Position)
    requires Proper(plan, env) && k <= |env|
    ensures p.last < plan.n
    decreases k, 0
  {
    if k == 0 then plan.first
    else
      var answer := Answer(request, env[k - 1]);
      Moved(plan.n, Position(PoolAt(plan, request, env, k - 1), PositionAt(plan, request, env, k - 1).fromLast),
            answer.Retriable? && Switches(plan.policy, answer.failure))
  }

  ghost function PoolAt(plan: Plan, request: Request, env: seq<Attempt>, k: nat): (pool: nat)
    requires Proper(plan, env) && k < |env|
    ensures pool < plan.n
    decreases k, 1
  {
    Picked(env[k].blacklisted, StartOf(PositionAt(plan, request, env, k), plan.idx), env[k].dice)
  }

  /** The multiplier is converted to an integer when an interval is multiplied with it. */
  function Truncated(x: real): int
  {
    if x >= 0.0 then x.Floor else -((-x).Floor)
  }

  function Longer(msecs: int, multiplier: real): int
  {
    msecs * Truncated(multiplier)
  }

  /** The pause before retry `k + 1`. */
  function Interval(base: int, multiplier: real, k: nat): int
  {
    if k == 0 then base else Longer(Interval(base, multiplier, k - 1), multiplier)
  }

  function SleptBefore(base: int, multiplier: real, k: nat): int
  {
    if k == 0 then 0 else Interval(base, multiplier, k - 1)
  }

  /** The pause that is next when `k` attempts were made. */
  function Upcoming(base: int, multiplier: real, k: nat): int
  {
    if k == 0 then base else Interval(base, multiplier, k - 1)
  }

  // ---------- the loop ----------

  /** What the loop does for one attempt: the pause before it, the pool, whether a pooled connection may be used,
      and the pool that is blamed for a connection that could not be made. */
  datatype Try = Try(slept: int, pool: nat, forceNew: bool, blamed: Option<nat>)

  ghost function TryOf(plan: Plan, base: int, multiplier: real, request: Request, env: seq<Attempt>, k: nat): Try
    requires Proper(plan, env) && k < |env|
  {
    var pool := PoolAt(plan, request, env, k);
    Try(SleptBefore(base, multiplier, k), pool, k != 0,
        if Answer(request, env[k]) == Retriable(ConnectFailure) then Some(pool) else None)
  }

  /** The attempts that are made: up to the first one that is not retriable. */
  function Made(request: Request, env: seq<Attempt>): (made: seq<Attempt>)
    requires env != []
    ensures made != [] && made <= env
  {
    if |env| == 1 || !Answer(request, env[0]).Retriable? then [env[0]]
    else [env[0]] + Made(request, env[1..])
  }

  ghost predicate Repeatable(request: Request, env: seq<Attempt>)
  {
    forall k :: 0 <= k < |env| ==> Answer(request, env[k]).Retriable?
  }

  lemma RepeatableNext(request: Request, env: seq<Attempt>, n: nat)
    requires n < |env| && Repeatable(request, env[..n]) && Answer(request, env[n]).Retriable?
    ensures Repeatable(request, env[..n + 1])
  {
  }

  lemma RepeatableRest(request: Request, env: seq<Attempt>, rest: seq<Attempt>, n: nat)
    requires 1 < n <= |env| && rest == env[1..] && Repeatable(request, env[..n - 1])
    ensures Answer(request, env[0]).Retriable? && Repeatable(request, rest[..n - 2]) && rest[n - 2] == env[n - 1]
  {
    hide Answer;
    assert env[..n - 1][0] == env[0] && rest[..n - 2] == env[..n - 1][1..];
  }

  lemma {:induction false} MadeIs(request: Request, env: seq<Attempt>, n: nat)
    requires 1 <= n <= |env| && Repeatable(request, env[..n - 1])
    requires n == |env| || !Answer(request, env[n - 1]).Retriable?
    ensures Made(request, env) == env[..n]
  {
    hide Answer, Repeatable;
    if n > 1 {
      var rest := env[1..];
      RepeatableRest(request, env, rest, n);
      MadeIs(request, rest, n - 1);
      assert [env[0]] + rest[..n - 1] == env[..n];
    } else {
      assert [env[0]] == env[..1];
    }
  }

  /** The tries are the ones that the plan tells. */
  ghost predicate Traced(plan: Plan, base: int, multiplier: real, request: Request, env: seq<Attempt>, tries: seq<Try>)
    requires Proper(plan, env)
  {
    && |tries| <= |env|
    && forall k :: 0 <= k < |tries| ==> tries[k] == TryOf(plan, base, multiplier, request, env, k)
  }

  /** Some attempts were made, all of them may be repeated, and the selector stands at `position`. */
  ghost predicate Underway(plan: Plan, base: int, multiplier: real, request: Request, env: seq<Attempt>,
                           position: Position, tries: seq<Try>)
  {
    && Proper(plan, env) && Traced(plan, base, multiplier, request, env, tries)
    && position == PositionAt(plan, request, env, |tries|) && Repeatable(request, env[..|tries|])
  }

  lemma StartsUnderway(plan: Plan, base: int, multiplier: real, request: Request, env: seq<Attempt>)
    requires Proper(plan, env)
    ensures Underway(plan, base, multiplier, request, env, plan.first, [])
  {
  }

  lemma TracedNext(plan: Plan, base: int, multiplier: real, request: Request, env: seq<Attempt>, tries: seq<Try>,
                   k: nat, slept: int, pool: nat, blamed: Option<nat>)
    requires Proper(plan, env) && k == |tries| < |env| && Traced(plan, base, multiplier, request, env, tries)
    requires slept == SleptBefore(base, multiplier, k) && pool == PoolAt(plan, request, env, k)
    requires blamed == if Answer(request, env[k]) == Retriable(ConnectFailure) then Some(pool) else None
    ensures Traced(plan, base, multiplier, request, env, tries + [Try(slept, pool, k != 0, blamed)])
  {
  }

  /** The loop goes on, or this was the last attempt. */
  lemma UnderwayNext(plan: Plan, base: int, multiplier: real, request: Request, env: seq<Attempt>, position: Position,
                     tries: seq<Try>, more: seq<Try>)
    requires Proper(plan, env) && |tries| < |env| && |more| == |tries| + 1
    requires Repeatable(request, env[..|tries|]) && Traced(plan, base, multiplier, request, env, more)
    requires position == PositionAt(plan, request, env, |more|)
    ensures Answer(request, env[|tries|]).Retriable? ==> Underway(plan, base, multiplier, request, env, position, more)
    ensures !Answer(request, env[|tries|]).Retriable? || |more| == |env| ==> Made(request, env) == env[..|more|]
  {
    hide Answer, PositionAt, Made, Traced, Proper;
    if Answer(request, env[|tries|]).Retriable? {
      RepeatableNext(request, env, |tries|);
    }
    if !Answer(request, env[|tries|]).Retriable? || |more| == |env| {
      MadeIs(request, env, |more|);
    }
  }

  /** What the selector is told about an attempt that may be repeated. */
  method Report(selector: NamespacePoolSelector, failure: Failure, policy: Policy) returns (blamed: Option<nat>)
    requires selector.Valid()
    modifies selector
    ensures selector.Valid()
    ensures Standing(selector) == old(Moved(selector.n, Standing(selector), Switches(policy, failure)))
    ensures blamed == if failure == ConnectFailure then Some(old(selector.lastIdx)) else None
  {
    blamed := None;
    match failure {
      case Timeout => selector.MoveOn(policy.onTimeout);
      case ConnectFailure => blamed := Some(selector.Blamed());
      case BackendError => selector.MoveOn(policy.onBackendError);
    }
  }

  /** One attempt, after the pause. */
  method TryOnce(request: Request, ghost plan: Plan, ghost env: seq<Attempt>, ghost k: nat, a: Attempt,
                 selector: NamespacePoolSelector, policy: Policy)
    returns (reply: Reply, pool: nat, blamed: Option<nat>)
    requires Proper(plan, env) && k < |env| && a == env[k]
    requires selector.Valid() && selector.n == plan.n && selector.idx == plan.idx && policy == plan.policy
    requires Standing(selector) == PositionAt(plan, request, env, k)
    modifies selector
    ensures selector.Valid() && Standing(selector) == PositionAt(plan, request, env, k + 1)
    ensures reply == Answer(request, a) && pool == PoolAt(plan, request, env, k)
    ensures blamed == if reply == Retriable(ConnectFailure) then Some(pool) else None
  {
    hide Answer, Picked, Switches;
    pool := selector.Pool(a.blacklisted, a.dice);
    reply := Answer(request, a);
    blamed := None;
    if reply.Retriable? {
      blamed := Report(selector, reply.failure, policy);
    }
  }

  class BackendInterface {
    var retryCounter: nat

    /** The pause before a retry, which makes the next one longer. */
    method Pause(attempt: nat, msecs: int, ghost base: int, multiplier: real) returns (slept: int, longer: int)
      requires msecs == Upcoming(base, multiplier, attempt)
      modifies this
      ensures slept == SleptBefore(base, multiplier, attempt) && longer == Upcoming(base, multiplier, attempt + 1)
      ensures retryCounter == old(retryCounter) + if attempt == 0 then 0 else 1
    {
      slept, longer := 0, msecs;
      if attempt != 0 {
        retryCounter := retryCounter + 1;
        slept := msecs;
        longer := Longer(msecs, multiplier);
      }
    }

    /** One pass through the loop. */
    method Pass(request: Request, ghost plan: Plan, env: seq<Attempt>, selector: NamespacePoolSelector, policy: Policy,
                ghost base: int, multiplier: real, msecs: int, tries: seq<Try>)
      returns (reply: Reply, longer: int, more: seq<Try>)
      requires Underway(plan, base, multiplier, request, env, Standing(selector), tries) && |tries| < |env|
      requires selector.Valid() && selector.n == plan.n && selector.idx == plan.idx && policy == plan.policy
      requires msecs == Upcoming(base, multiplier, |tries|)
      modifies this, selector
      ensures selector.Valid() && retryCounter == old(retryCounter) + if tries == [] then 0 else 1
      ensures longer == Upcoming(base, multiplier, |more|) && |more| == |tries| + 1
      ensures reply == Answer(request, env[|tries|])
      ensures Proper(plan, env) && Traced(plan, base, multiplier, request, env, more)
      ensures Repeatable(request, env[..|tries|])
      ensures reply.Retriable? ==> Underway(plan, base, multiplier, request, env, Standing(selector), more)
      ensures !reply.Retriable? || |more| == |env| ==> Made(request, env) == env[..|more|]
    {
      hide Answer, Made, Repeatable, Traced, PositionAt, PoolAt, Upcoming, SleptBefore, Proper;
      var slept, pool, blamed;
      slept, longer := Pause(|tries|, msecs, base, multiplier);
      reply, pool, blamed := TryOnce(request, plan, env, |tries|, env[|tries|], selector, policy);
      TracedNext(plan, base, multiplier, request, env, tries, |tries|, slept, pool, blamed);
      more := tries + [Try(slept, pool, |tries| != 0, blamed)];
      UnderwayNext(plan, base, multiplier, request, env, Standing(selector), tries, more);
    }

    /** do_wrap_. */
    method Wrap(request: Request, env: seq<Attempt>, selector: NamespacePoolSelector, policy: Policy,
                retries: nat, base: int, multiplier: real)
      returns (reply: Reply, tries: seq<Try>)
      requires selector.Valid() && |env| == retries + 1
      requires Proper(Plan(selector.n, selector.idx, Standing(selector), policy), env)
      modifies this, selector
      ensures selector.Valid() && tries != [] && retryCounter == old(retryCounter) + |tries| - 1
      ensures |tries| <= retries + 1 && Made(request, env) == env[..|tries|]
      ensures Repeatable(request, env[..|tries| - 1])
      ensures reply == Answer(request, env[|tries| - 1]) && (reply.Retriable? ==> |tries| == retries + 1)
      ensures Traced(old(Plan(selector.n, selector.idx, Standing(selector), policy)), base, multiplier, request,
                     env, tries)
    {
      ghost var plan := Plan(selector.n, selector.idx, Standing(selector), policy);
      var msecs := base;
      tries := [];
      StartsUnderway(plan, base, multiplier, request, env);
      assert msecs == Upcoming(base, multiplier, |tries|);
      hide *;
      while true
        invariant |tries| <= retries && selector.Valid() && msecs == Upcoming(base, multiplier, |tries|)
        invariant retryCounter == old(retryCounter) + if tries == [] then 0 else |tries| - 1
        invariant Underway(plan, base, multiplier, request, env, Standing(selector), tries)
        decreases retries - |tries|
      {
        reply, msecs, tries := Pass(request, plan, env, selector, policy, base, multiplier, msecs, tries);
        if !reply.Retriable? || |tries| > retries {
          return;
        }
      }
    }
  }

  // ---------- which pools a request tries ----------

  /** All attempts fail and move on, and nothing changes which pools are blacklisted. */
  ghost predicate AlwaysSwitches(plan: Plan, request: Request, env: seq<Attempt>, blacklisted: seq<bool>)
  {
    forall k :: 0 <= k < |env| ==>
      && env[k].blacklisted == blacklisted
      && Answer(request, env[k]).Retriable? && Switches(plan.policy, Answer(request, env[k]).failure)
  }

  lemma {:induction false} SwitchesInOrder(plan: Plan, request: Request, env: seq<Attempt>, blacklisted: seq<bool>,
                                           start: nat, k: nat)
    requires Proper(plan, env) && |blacklisted| == plan.n && AlwaysSwitches(plan, request, env, blacklisted)
    requires start == StartOf(plan.first, plan.idx) && FreePlaces(blacklisted, start) != [] && k < |env|
    ensures PoolAt(plan, request, env, k) == Visited(blacklisted, start, k)
  {
    hide FreePlaces, NextFree, Switches, Answer;
    if k == 0 {
      VisitedAtStart(blacklisted, start);
    } else {
      SwitchesInOrder(plan, request, env, blacklisted, start, k - 1);
      VisitedNext(blacklisted, start, k);
      assert env[k - 1].blacklisted == blacklisted;
    }
  }

  /** A request that gives up has tried every usable pool, if it may be tried that often. */
  lemma GivesUpAfterAllPools(plan: Plan, request: Request, env: seq<Attempt>, blacklisted: seq<bool>, start: nat,
                             i: nat) returns (k: nat)
    requires Proper(plan, env) && |blacklisted| == plan.n && AlwaysSwitches(plan, request, env, blacklisted)
    requires start == StartOf(plan.first, plan.idx) && |FreePlaces(blacklisted, start)| <= |env|
    requires i < plan.n && !blacklisted[i]
    ensures k < |env| && PoolAt(plan, request, env, k) == i
  {
    hide FreePlaces, AlwaysSwitches, PoolAt;
    SomeFreeFromAnywhere(blacklisted, i, start);
    EachUsedOnce(blacklisted, start);
    k :| 0 <= k < |FreePlaces(blacklisted, start)| && Visited(blacklisted, start, k) == i;
    SwitchesInOrder(plan, request, env, blacklisted, start, k);
  }

  ghost function Usable(blacklisted: seq<bool>): set<nat>
  {
    set i | 0 <= i < |blacklisted| && !blacklisted[i]
  }

  /** Every blamed pool is blacklisted from then on, and the others stay as they are. */
  ghost predicate BlameBlacklists(env: seq<Attempt>, tries: seq<Try>)
  {
    |tries| <= |env| &&
    forall k :: 0 <= k && k + 1 < |tries| ==>
      Usable(env[k + 1].blacklisted)
      == Usable(env[k].blacklisted) - if tries[k].blamed.Some? then {tries[k].blamed.value} else {}
  }

  ghost predicate OnlyConnectFailures(request: Request, env: seq<Attempt>, n: nat)
  {
    n <= |env| && forall k :: 0 <= k < n ==> Answer(request, env[k]) == Retriable(ConnectFailure)
  }

  lemma PickedIsUsable(blacklisted: seq<bool>, start: nat, dice: nat)
    requires start < |blacklisted| && dice < |blacklisted| && Usable(blacklisted) != {}
    ensures Picked(blacklisted, start, dice) in Usable(blacklisted)
  {
    var i :| i in Usable(blacklisted);
    SomeFreeFromAnywhere(blacklisted, i, start);
  }

  /** Each pool in turn is taken from the usable ones while there are any. */
  ghost predicate TakenInTurn(usable: seq<set<nat>>, pools: seq<nat>)
  {
    && |usable| == |pools|
    && (forall k :: 0 <= k < |pools| && usable[k] != {} ==> pools[k] in usable[k])
    && forall j, k :: 0 <= j < |pools| && k == j + 1 < |pools| ==> usable[k] == usable[j] - {pools[j]}
  }

  lemma {:induction false} OneLess(usable: seq<set<nat>>, pools: seq<nat>, k: nat)
    requires TakenInTurn(usable, pools) && k < |pools| && k <= |usable[0]|
    ensures |usable[k]| == |usable[0]| - k && usable[k] <= usable[0]
  {
    if k > 0 {
      OneLess(usable, pools, k - 1);
    }
  }

  lemma {:induction false} TakenIsGone(usable: seq<set<nat>>, pools: seq<nat>, j: nat, k: nat)
    requires TakenInTurn(usable, pools) && j < k < |pools|
    ensures pools[j] !in usable[k]
  {
    if k > j + 1 {
      TakenIsGone(usable, pools, j, k - 1);
    }
  }

  /** One connect failure: its pool is blamed and no longer usable, and was usable before if any was. */
  lemma FailedConnection(plan: Plan, base: int, multiplier: real, request: Request, env: seq<Attempt>,
                         tries: seq<Try>, k: nat)
    requires Proper(plan, env) && Traced(plan, base, multiplier, request, env, tries) && k < |tries|
    requires OnlyConnectFailures(request, env, |tries|) && BlameBlacklists(env, tries)
    ensures k + 1 < |tries| ==>
              Usable(env[k + 1].blacklisted) == Usable(env[k].blacklisted) - {tries[k].pool}
    ensures Usable(env[k].blacklisted) != {} ==> tries[k].pool in Usable(env[k].blacklisted)
  {
    hide Answer, Picked, PositionAt, Usable;
    assert tries[k] == TryOf(plan, base, multiplier, request, env, k);
    if Usable(env[k].blacklisted) != {} {
      PickedIsUsable(env[k].blacklisted, StartOf(PositionAt(plan, request, env, k), plan.idx), env[k].dice);
    }
  }

  lemma FailuresTakePools(plan: Plan, base: int, multiplier: real, request: Request, env: seq<Attempt>,
                          tries: seq<Try>, usable: seq<set<nat>>, pools: seq<nat>)
    requires Proper(plan, env) && Traced(plan, base, multiplier, request, env, tries)
    requires OnlyConnectFailures(request, env, |tries|) && BlameBlacklists(env, tries)
    requires |usable| == |pools| == |tries|
    requires forall k :: 0 <= k < |tries| ==> usable[k] == Usable(env[k].blacklisted) && pools[k] == tries[k].pool
    ensures TakenInTurn(usable, pools)
  {
    forall k | 0 <= k < |tries|
      ensures usable[k] != {} ==> pools[k] in usable[k]
      ensures k + 1 < |tries| ==> usable[k + 1] == usable[k] - {pools[k]}
    {
      FailedConnection(plan, base, multiplier, request, env, tries, k);
    }
  }

  /** Consecutive connect failures use different usable pools until all of them are blacklisted, which is after as many
      attempts as there were usable pools. */
  lemma ConnectFailuresFailOver(plan: Plan, base: int, multiplier: real, request: Request, env: seq<Attempt>,
                                tries: seq<Try>, j: nat, k: nat)
    requires Proper(plan, env) && Traced(plan, base, multiplier, request, env, tries) && j < k < |tries|
    requires OnlyConnectFailures(request, env, |tries|) && BlameBlacklists(env, tries)
    ensures var n := |Usable(env[0].blacklisted)|;
            && (k < n ==> tries[k].pool in Usable(env[0].blacklisted) && tries[j].pool != tries[k].pool)
            && (k == n ==> Usable(env[k].blacklisted) == {})
  {
    var usable := seq(|tries|, i requires 0 <= i < |tries| => Usable(env[i].blacklisted));
    var pools := seq(|tries|, i requires 0 <= i < |tries| => tries[i].pool);
    FailuresTakePools(plan, base, multiplier, request, env, tries, usable, pools);
    hide Proper, Traced, OnlyConnectFailures, BlameBlacklists, Usable;
    if k <= |usable[0]| {
      OneLess(usable, pools, k);
      TakenIsGone(usable, pools, j, k);
    }
  }

  // ---------- what the selector is told ----------

  /** After a timeout or a backend error that the policy names, the next attempt starts at the pool after the one that
      was used; after any other failure it starts where this one did, or at the pool that was used if the selector had
      moved on before. */
  lemma PositionNext(plan: Plan, request: Request, env: seq<Attempt>, k: nat)
    requires Proper(plan, env) && k < |env| && Answer(request, env[k]).Retriable?
    ensures var failure, pool := Answer(request, env[k]).failure, PoolAt(plan, request, env, k);
            var moves := (failure == Timeout && plan.policy.onTimeout) ||
                         (failure == BackendError && plan.policy.onBackendError);
            PositionAt(plan, request, env, k + 1)
            == if moves then Position((pool + 1) % plan.n, true)
               else Position(pool, PositionAt(plan, request, env, k).fromLast)
  {
    hide PoolAt, Answer, After;
    AfterIs(plan.n, PoolAt(plan, request, env, k));
  }

  /** The policy does not make the selector move on. */
  ghost predicate Stays(policy: Policy, failure: Failure)
  {
    failure == ConnectFailure || (failure == Timeout && !policy.onTimeout) ||
    (failure == BackendError && !policy.onBackendError)
  }

  lemma {:induction false} NeverMoved(plan: Plan, request: Request, env: seq<Attempt>, k: nat)
    requires Proper(plan, env) && k <= |env| && !plan.first.fromLast
    requires forall j :: 0 <= j < k ==>
               Answer(request, env[j]).Retriable? && Stays(plan.policy, Answer(request, env[j]).failure)
    ensures !PositionAt(plan, request, env, k).fromLast
  {
    if k > 0 {
      hide PoolAt, Answer;
      NeverMoved(plan, request, env, k - 1);
    }
  }

  /** Until the policy moves the selector on, every attempt goes to the namespace's own pool if that is usable. */
  lemma OwnPoolFirst(plan: Plan, request: Request, env: seq<Attempt>, k: nat)
    requires Proper(plan, env) && k < |env| && !plan.first.fromLast
    requires forall j :: 0 <= j < k ==>
               Answer(request, env[j]).Retriable? && Stays(plan.policy, Answer(request, env[j]).failure)
    requires !env[k].blacklisted[plan.idx]
    ensures PoolAt(plan, request, env, k) == plan.idx
  {
    NeverMoved(plan, request, env, k);
    NextFreeAt(env[k].blacklisted, plan.idx, 0);
  }

  /** When it does, the next attempt goes to the pool after the one that failed, if that is usable. */
  lemma NextPoolAfter(plan: Plan, request: Request, env: seq<Attempt>, k: nat)
    requires Proper(plan, env) && k + 1 < |env| && Answer(request, env[k]).Retriable?
    requires !Stays(plan.policy, Answer(request, env[k]).failure)
    requires !env[k + 1].blacklisted[(PoolAt(plan, request, env, k) + 1) % plan.n]
    ensures PoolAt(plan, request, env, k + 1) == (PoolAt(plan, request, env, k) + 1) % plan.n
  {
    var next := (PoolAt(plan, request, env, k) + 1) % plan.n;
    assert PositionAt(plan, request, env, k + 1) == Position(next, true) by {
      PositionNext(plan, request, env, k);
    }
    hide PositionAt, Answer;
    NextFreeAt(env[k + 1].blacklisted, next, 0);
  }

  /** An attempt is repeated only after a failure to reach the backend, to hear from it, or of the store itself; a
      return, a failed assertion and a missing namespace or object are final. */
  lemma RepeatedExactly(request: Request, a: Attempt)
    ensures Answer(request, a).Retriable? <==> !a.arrives || !a.answers || request(a.objects) == Failed(StoreError)
    ensures Answer(request, a).Returned? <==> a.arrives && a.answers && request(a.objects).Done?
    ensures Answer(request, a).Refused? ==> request(a.objects) == Failed(Answer(request, a).error)
    ensures Answer(request, a).Retriable? && a.arrives && a.answers ==> Answer(request, a).failure == BackendError
    ensures Answer(request, a).Retriable? && !(a.arrives && a.answers) ==> Answer(request, a).failure == a.failure
  {
  }

  /** What a traced run does: only the first attempt may use a pooled connection, a pool is blamed exactly for a
      connection that could not be made, there is no pause before the first attempt, the configured one before the
      second, and each further one is the last one multiplied. */
  lemma TriesAsTold(plan: Plan, base: int, multiplier: real, request: Request, env: seq<Attempt>, tries: seq<Try>,
                    k: nat)
    requires Proper(plan, env) && Traced(plan, base, multiplier, request, env, tries) && k < |tries|
    ensures tries[k].forceNew <==> k > 0
    ensures tries[k].blamed
         == if Answer(request, env[k]) == Retriable(ConnectFailure) then Some(tries[k].pool) else None
    ensures k == 0 ==> tries[k].slept == 0
    ensures k == 1 ==> tries[k].slept == base
    ensures k > 1 ==> tries[k].slept == tries[k - 1].slept * Truncated(multiplier)
  {
    hide PoolAt, Answer, Truncated;
    assert tries[k] == TryOf(plan, base, multiplier, request, env, k);
    if k > 1 {
      assert tries[k - 1] == TryOf(plan, base, multiplier, request, env, k - 1);
    }
  }

  /** Conversion to an integer cuts off towards zero. */
  lemma TruncatedTowardsZero(x: real)
    ensures x >= 0.0 ==> 0.0 <= Truncated(x) as real <= x < Truncated(x) as real + 1.0
    ensures x <= 0.0 ==> Truncated(x) as real - 1.0 < x <= Truncated(x) as real <= 0.0
  {
  }

  // ---------- how often a conditional write takes effect ----------

  /** The request replaces the object if it is the `previous` version, and does nothing otherwise. */
  ghost predicate IsCompareAndSwap(request: Request, name: string, previous: Option<Content>, data: Content)
  {
    forall objects: Objects ::
      if Current(objects, name) == previous then request(objects) == Done(objects[name := data])
      else request(objects).Failed? && request(objects).error != StoreError
  }

  /** write_tag_ is one on either backend. */
  lemma WriteTagIsOne(name: string, previous: Option<Content>, data: Content, md5: Digest, sha1: Digest)
    requires Injective(md5) && Injective(sha1) && FileName(name)
    ensures IsCompareAndSwap(
              objects => AlbaWrite(objects, name, data, previous.Some?, TagCondition(name, previous), sha1),
              name, previous, data)
    ensures IsCompareAndSwap(
              objects => LocalWrite(objects, name, data, previous.Some?, TagCondition(name, previous), md5),
              name, previous, data)
  {
    forall objects: Objects
      ensures var alba := AlbaWrite(objects, name, data, previous.Some?, TagCondition(name, previous), sha1);
              var local := LocalWrite(objects, name, data, previous.Some?, TagCondition(name, previous), md5);
              if Current(objects, name) == previous then alba == local == Done(objects[name := data])
              else alba.Failed? && local.Failed? && alba.error != StoreError && local.error != StoreError
    {
      WriteTagIsCompareAndSwap(objects, name, data, previous, md5, sha1);
    }
  }

  function Effects(request: Request, made: seq<Attempt>): nat
  {
    if made == [] then 0 else (if TakesEffect(request, made[0]) then 1 else 0) + Effects(request, made[1..])
  }

  /** Between the attempts nobody brings the `previous` version back. */
  ghost predicate NeverReturns(request: Request, env: seq<Attempt>, name: string, previous: Option<Content>)
  {
    forall k :: 1 <= k < |env| && Current(Leaves(request, env[k - 1]), name) != previous ==>
      Current(env[k].objects, name) != previous
  }

  lemma NeverReturnsRest(request: Request, env: seq<Attempt>, name: string, previous: Option<Content>)
    requires env != [] && NeverReturns(request, env, name, previous)
    ensures NeverReturns(request, env[1..], name, previous)
  {
  }

  lemma {:induction false} NoEffectOnceReplaced(request: Request, env: seq<Attempt>, name: string,
                                                previous: Option<Content>, data: Content)
    requires IsCompareAndSwap(request, name, previous, data) && NeverReturns(request, env, name, previous)
    requires env != [] ==> Current(env[0].objects, name) != previous
    ensures Effects(request, env) == 0
  {
    if env != [] {
      NeverReturnsRest(request, env, name, previous);
      assert request(env[0].objects).Failed?;
      assert |env| > 1 ==> Current(Leaves(request, env[1 - 1]), name) != previous;
      NoEffectOnceReplaced(request, env[1..], name, previous, data);
    }
  }

  lemma {:induction false} AtMostOneEffect(request: Request, env: seq<Attempt>, name: string,
                                           previous: Option<Content>, data: Content)
    requires IsCompareAndSwap(request, name, previous, data) && NeverReturns(request, env, name, previous)
    requires Some(data) != previous
    ensures Effects(request, env) <= 1
  {
    if env != [] {
      NeverReturnsRest(request, env, name, previous);
      if TakesEffect(request, env[0]) {
        assert Current(Leaves(request, env[1 - 1]), name) == Some(data);
        NoEffectOnceReplaced(request, env[1..], name, previous, data);
      } else {
        AtMostOneEffect(request, env[1..], name, previous, data);
      }
    }
  }

  lemma {:induction false} EffectCounts(request: Request, made: seq<Attempt>, k: nat)
    requires k < |made| && TakesEffect(request, made[k])
    ensures Effects(request, made) >= 1
  {
    if k > 0 {
      EffectCounts(request, made[1..], k - 1);
    }
  }

  /** A write of new content takes effect at most once, and exactly once if the request returns. */
  lemma ReturnMeansOnce(request: Request, env: seq<Attempt>, name: string, previous: Option<Content>, data: Content)
    requires IsCompareAndSwap(request, name, previous, data) && Some(data) != previous && env != []
    requires NeverReturns(request, Made(request, env), name, previous)
    ensures var made := Made(request, env);
            && Effects(request, made) <= 1
            && (Answer(request, made[|made| - 1]).Returned? ==> Effects(request, made) == 1)
  {
    var made := Made(request, env);
    AtMostOneEffect(request, made, name, previous, data);
    if Answer(request, made[|made| - 1]).Returned? {
      EffectCounts(request, made, |made| - 1);
    }
  }

  /** Whatever is lost, the write takes effect at most once. */
  ghost predicate AtMostOnce(request: Request, retries: nat, name: string, previous: Option<Content>)
  {
    forall env: seq<Attempt> :: |env| == retries + 1 && NeverReturns(request, Made(request, env), name, previous) ==>
      Effects(request, Made(request, env)) <= 1
  }

  /** That holds exactly when the content changes or there are no retries: a write of the same content again can
      take effect with every attempt. */
  lemma AtMostOnceExactly(request: Request, retries: nat, name: string, previous: Option<Content>, data: Content)
    requires IsCompareAndSwap(request, name, previous, data)
    ensures AtMostOnce(request, retries, name, previous) <==> retries == 0 || Some(data) != previous
  {
    if retries == 0 {
      forall env: seq<Attempt> | |env| == 1
        ensures Effects(request, Made(request, env)) <= 1
      {
        assert Effects(request, Made(request, env)[1..]) == 0;
      }
    } else if Some(data) != previous {
      forall env: seq<Attempt> | |env| == retries + 1 && NeverReturns(request, Made(request, env), name, previous)
        ensures Effects(request, Made(request, env)) <= 1
      {
        AtMostOneEffect(request, Made(request, env), name, previous, data);
      }
    } else {
      SameContentAgain(request, retries, name, data);
    }
  }

  lemma SameContentAgain(request: Request, retries: nat, name: string, data: Content)
    requires IsCompareAndSwap(request, name, Some(data), data) && retries > 0
    ensures !AtMostOnce(request, retries, name, Some(data))
  {
    var lost := Attempt(map[name := data], true, false, Timeout, [], 0);
    var env := seq(retries + 1, _ => lost);
    assert TakesEffect(request, env[0]) && TakesEffect(request, env[1..][0]);
    assert env[..retries + 1] == env;
    MadeIs(request, env, retries + 1);
    assert NeverReturns(request, env, name, Some(data));
    assert Effects(request, env) == 1 + (1 + Effects(request, env[1..][1..]));
  }

  /** How many attempts took effect without an answer. */
  function LostEffects(request: Request, made: seq<Attempt>): nat
  {
    if made == [] then 0
    else (if TakesEffect(request, made[0]) && !made[0].answers then 1 else 0) + LostEffects(request, made[1..])
  }

  /** A request takes effect once for its return and once for each answer of an effect that was lost, so the caller is
      told the truth exactly when there is no such answer. */
  lemma {:induction false} EffectsCounted(request: Request, env: seq<Attempt>)
    requires env != []
    ensures var made := Made(request, env);
            Effects(request, made)
            == LostEffects(request, made) + if Answer(request, made[|made| - 1]).Returned? then 1 else 0
  {
    if |env| > 1 && Answer(request, env[0]).Retriable? {
      var rest := Made(request, env[1..]);
      EffectsCounted(request, env[1..]);
      assert Made(request, env) == [env[0]] + rest && ([env[0]] + rest)[1..] == rest;
    } else {
      assert Made(request, env) == [env[0]] && [env[0]][1..] == [];
    }
  }

  /** A refusal means that nothing happened, whatever is lost. */
  ghost predicate RefusalMeansNothing(request: Request, retries: nat, name: string, previous: Option<Content>)
  {
    forall env: seq<Attempt> :: |env| == retries + 1 && NeverReturns(request, Made(request, env), name, previous) ==>
      var made := Made(request, env);
      Answer(request, made[|made| - 1]).Refused? ==> Effects(request, made) == 0
  }

  /** For a conditional write that holds exactly when there are no retries. */
  lemma RefusalExactly(request: Request, retries: nat, name: string, previous: Option<Content>, data: Content)
    requires IsCompareAndSwap(request, name, previous, data)
    ensures RefusalMeansNothing(request, retries, name, previous) <==> retries == 0
  {
    if retries == 0 {
      forall env: seq<Attempt> | |env| == 1
        ensures Answer(request, Made(request, env)[0]).Refused? ==> Effects(request, Made(request, env)) == 0
      {
        assert Effects(request, Made(request, env)[1..]) == 0;
      }
    } else {
      LostThenRefused(request, retries, name, previous, data);
    }
  }

  lemma LostThenRefused(request: Request, retries: nat, name: string, previous: Option<Content>, data: Content)
    requires IsCompareAndSwap(request, name, previous, data) && retries > 0
    ensures !RefusalMeansNothing(request, retries, name, previous)
  {
    var before: Objects := if previous.Some? then map[name := previous.value] else map[];
    var after: Objects := if previous.Some? then map[] else map[name := data];
    var lost, refused := Attempt(before, true, false, Timeout, [], 0), Attempt(after, true, true, Timeout, [], 0);
    assert Current(before, name) == previous && Current(after, name) != previous;
    var env := [lost] + seq(retries, _ => refused);
    assert env[0] == lost && env[1] == refused && env[..1] == [lost];
    assert request(after).Failed? && request(before).Done?;
    MadeIs(request, env, 2);
    var made := [lost, refused];
    assert env[..2] == made;
    assert NeverReturns(request, made, name, previous);
    assert made[1..] == [refused] && Effects(request, made[1..]) == 0;
  }

  /** A run without interference in which it does not: a write whose answer was lost is reported as a failed assertion
      by the attempt that follows. */
  lemma LostAnswerIsRefusal(name: string, previous: Option<Content>, data: Content, sha1: Digest)
    returns (env: seq<Attempt>)
    requires Injective(sha1) && FileName(name) && Some(data) != previous
    ensures |env| == 2
    ensures var request := objects =>
              AlbaWrite(objects, name, data, previous.Some?, TagCondition(name, previous), sha1);
            && Made(request, env) == env && env[1].objects == Leaves(request, env[0])
            && NeverReturns(request, env, name, previous)
            && Effects(request, env) == 1 && Answer(request, env[1]) == Refused(AssertionFailed)
  {
    var before := if previous.Some? then map[name := previous.value] else map[];
    env := [Attempt(before, true, false, Timeout, [], 0), Attempt(before[name := data], true, true, Timeout, [], 0)];
    WriteTagIsCompareAndSwap(before, name, data, previous, sha1, sha1);
    WriteTagIsCompareAndSwap(before[name := data], name, data, previous, sha1, sha1);
    var request := objects => AlbaWrite(objects, name, data, previous.Some?, TagCondition(name, previous), sha1);
    assert TakesEffect(request, env[0]) && !TakesEffect(request, env[1]);
    assert env[1..] == [env[1]];
    assert Effects(request, env[1..]) == 0;
  }

  // ---------- the pauses ----------

  /** The pause that is meant by a multiplier. */
  ghost function MeantInterval(base: int, multiplier: real, k: nat): real
  {
    if k == 0 then base as real else MeantInterval(base, multiplier, k - 1) * multiplier
  }

  ghost predicate BacksOffAsMeant(base: int, multiplier: real)
  {
    forall k: nat :: Interval(base, multiplier, k) as real == MeantInterval(base, multiplier, k)
  }

  lemma {:induction false} IntegralInterval(base: int, multiplier: real, k: nat)
    requires base == 0 || Truncated(multiplier) as real == multiplier
    ensures Interval(base, multiplier, k) as real == MeantInterval(base, multiplier, k)
    ensures base == 0 ==> Interval(base, multiplier, k) == 0
  {
    if k > 0 {
      IntegralInterval(base, multiplier, k - 1);
    }
  }

  /** The pauses grow as meant exactly when the multiplier is integral or there is no pause. */
  lemma BackoffExactly(base: int, multiplier: real)
    ensures BacksOffAsMeant(base, multiplier) <==> base == 0 || Truncated(multiplier) as real == multiplier
  {
    if base == 0 || Truncated(multiplier) as real == multiplier {
      forall k: nat
        ensures Interval(base, multiplier, k) as real == MeantInterval(base, multiplier, k)
      {
        IntegralInterval(base, multiplier, k);
      }
    } else {
      var t := Truncated(multiplier);
      assert Interval(base, multiplier, 1) == base * t;
      assert MeantInterval(base, multiplier, 1) == base as real * multiplier;
      ProductsDiffer(base as real, t as real, multiplier);
    }
  }

  lemma ProductsDiffer(a: real, x: real, y: real)
    requires a != 0.0 && x != y
    ensures a * x != a * y
  {
  }

  /** A multiplier below two does not make the pauses any longer. */
  lemma {:induction false} BackoffStuck(base: int, multiplier: real, k: nat)
    requires 1.0 <= multiplier < 2.0
    ensures Interval(base, multiplier, k) == base
  {
    if k > 0 {
      BackoffStuck(base, multiplier, k - 1);
      assert Truncated(multiplier) == 1;
    }
  }
}

/** Rules that make file system calls fail or wait: each one lets a number of matching calls pass, then strikes a
    number of times. */
module FaultRules {
  import opened Wrappers
  import opened Values

  datatype Call = Call(path: string, op: int)

  datatype Verdict = No | Indeterminate | Yes

  // ---------- one rule ----------

  /** `accepts` stands for the path pattern and the set of operations; `effect` is an error code or a delay. */
  datatype Rule = Rule(id: nat, accepts: Call -> bool, rampUp: U32, duration: U32, effect: int,
                       matches: nat, expired: bool)

  /** The sum of two 32-bit values. */
  function Limit(r: Rule): nat
  {
    if r.rampUp + r.duration < TWO_32 then r.rampUp + r.duration else r.rampUp + r.duration - TWO_32
  }

  function Count(r: Rule): nat
  {
    if r.matches + 1 == TWO_64 then 0 else r.matches + 1
  }

  /** What match returns. */
  function Answer(r: Rule, call: Call): Verdict
  {
    if !r.accepts(call) || r.expired then No
    else if Count(r) <= r.rampUp then Indeterminate
    else Yes
  }

  /** What match leaves behind. */
  function Matched(r: Rule, call: Call): Rule
  {
    if !r.accepts(call) || r.expired then r
    else r.(matches := Count(r), expired := Count(r) > r.rampUp && Count(r) == Limit(r))
  }

  predicate Fresh(r: Rule)
  {
    r.matches == 0 && !r.expired
  }

  /** The rule expires, as it is meant to. */
  predicate Finite(r: Rule)
  {
    0 < r.duration && r.rampUp + r.duration < TWO_32
  }

  /** What the rule says to the accepted call number `k` that gets to it. */
  function Planned(r: Rule, k: nat): Verdict
  {
    if Finite(r) && k >= r.rampUp + r.duration then No
    else if (k + 1) % TWO_64 <= r.rampUp then Indeterminate
    else Yes
  }

  // ---------- a set of rules ----------

  type Rules = map<nat, Rule>

  /** The call gets to the rule: no rule with a lower id strikes. */
  ghost predicate Reaches(rules: Rules, id: nat, call: Call)
  {
    forall j :: j in rules && j < id ==> Answer(rules[j], call) != Yes
  }

  ghost predicate Strikes(rules: Rules, id: nat, call: Call)
  {
    id in rules && Reaches(rules, id, call) && Answer(rules[id], call) == Yes
  }

  ghost function AfterCall(rules: Rules, call: Call): Rules
  {
    map id | id in rules :: if Reaches(rules, id, call) then Matched(rules[id], call) else rules[id]
  }

  /** What the rule that strikes does to the call. */
  ghost function EffectOf(rules: Rules, call: Call): Option<int>
  {
    if exists id :: Strikes(rules, id, call) then
      var id :| Strikes(rules, id, call);
      Some(rules[id].effect)
    else None
  }

  lemma EffectIs(rules: Rules, id: nat, call: Call)
    requires Strikes(rules, id, call)
    ensures EffectOf(rules, call) == Some(rules[id].effect)
  {
  }

  /** The effect of the rule that strikes, and zero if none does. */
  ghost predicate IsEffect(rules: Rules, call: Call, effect: int)
  {
    && (forall id :: Strikes(rules, id, call) ==> effect == rules[id].effect)
    && ((forall id :: !Strikes(rules, id, call)) ==> effect == 0)
  }

  lemma EffectOrZero(rules: Rules, call: Call)
    ensures IsEffect(rules, call, OrZero(EffectOf(rules, call)))
  {
    forall id | Strikes(rules, id, call)
      ensures EffectOf(rules, call) == Some(rules[id].effect)
    {
      EffectIs(rules, id, call);
    }
  }

  function OrZero(effect: Option<int>): int
  {
    if effect.Some? then effect.value else 0
  }

  datatype Step = Add(rule: Rule) | Remove(id: nat) | Touch(call: Call)

  /** A rule with a known id is not added, and an unknown one not removed. */
  ghost function Next(rules: Rules, step: Step): Rules
  {
    match step
    case Add(r) => if r.id in rules then rules else rules[r.id := r]
    case Remove(id) => rules - {id}
    case Touch(call) => AfterCall(rules, call)
  }

  /** A new rule joins the others, a removed one leaves them, and a call changes what a rule has seen but not what it
      is. */
  lemma RulesChange(rules: Rules, r: Rule, id: nat, call: Call)
    ensures r.id in rules ==> Next(rules, Add(r)) == rules
    ensures r.id !in rules ==>
              var t := Next(rules, Add(r));
              t.Keys == rules.Keys + {r.id} && t[r.id] == r && forall j <- rules :: t[j] == rules[j]
    ensures var t := Next(rules, Remove(id));
            t.Keys == rules.Keys - {id} && forall j <- t :: t[j] == rules[j]
    ensures var t := Next(rules, Touch(call));
            && t.Keys == rules.Keys
            && forall j <- t :: t[j] == rules[j].(matches := t[j].matches, expired := t[j].expired)
  {
  }

  ghost function Run(steps: seq<Step>): Rules
  {
    if steps == [] then map[] else Next(Run(steps[..|steps| - 1]), steps[|steps| - 1])
  }

  /** The verdicts of the rule with this id, since it was added, on the accepted calls that got to it. */
  ghost function Verdicts(steps: seq<Step>, id: nat): seq<Verdict>
  {
    if steps == [] then []
    else
      var before, rules := steps[..|steps| - 1], Run(steps[..|steps| - 1]);
      match steps[|steps| - 1]
      case Add(r) => if r.id == id && id !in rules then [] else Verdicts(before, id)
      case Remove(i) => if i == id then [] else Verdicts(before, id)
      case Touch(call) =>
        if id in rules && rules[id].accepts(call) && Reaches(rules, id, call)
        then Verdicts(before, id) + [Answer(rules[id], call)]
        else Verdicts(before, id)
  }

  ghost predicate AddsFresh(steps: seq<Step>)
  {
    forall k :: 0 <= k < |steps| && steps[k].Add? ==> Fresh(steps[k].rule)
  }

  /** The rule stands where its verdicts put it, and these are the planned ones. */
  ghost predicate OnPlan(r: Rule, verdicts: seq<Verdict>)
  {
    && (forall k :: 0 <= k < |verdicts| ==> verdicts[k] == Planned(r, k))
    && (r.expired <==> Finite(r) && |verdicts| >= r.rampUp + r.duration)
    && (!r.expired ==> r.matches == |verdicts| % TWO_64)
  }

  lemma CountIs(n: nat)
    ensures (n + 1) % TWO_64 == if n % TWO_64 + 1 == TWO_64 then 0 else n % TWO_64 + 1
  {
  }

  lemma MatchedOnPlan(r: Rule, verdicts: seq<Verdict>, call: Call)
    requires OnPlan(r, verdicts) && r.accepts(call)
    ensures OnPlan(Matched(r, call), verdicts + [Answer(r, call)])
  {
    CountIs(|verdicts|);
  }

  lemma {:induction false} EveryRuleOnPlan(steps: seq<Step>, id: nat)
    requires AddsFresh(steps) && id in Run(steps)
    ensures Run(steps)[id].id == id && OnPlan(Run(steps)[id], Verdicts(steps, id))
  {
    var n := |steps| - 1;
    var before, rules, step := steps[..n], Run(steps[..n]), steps[n];
    if id in rules {
      EveryRuleOnPlan(before, id);
    }
    hide OnPlan, Reaches;
    match step
    case Touch(call) =>
      if rules[id].accepts(call) && Reaches(rules, id, call) {
        MatchedOnPlan(rules[id], Verdicts(before, id), call);
      }
    case _ =>
  }

  lemma PlanOfFinite(r: Rule, k: nat)
    requires Finite(r)
    ensures Planned(r, k) == if k < r.rampUp then Indeterminate else if k < r.rampUp + r.duration then Yes else No
  {
  }

  /** The plan comes to an end exactly for the rules whose duration is positive and whose sum fits in 32 bits. */
  lemma EndsExactly(r: Rule)
    ensures (exists k: nat :: Planned(r, k) == No) <==> Finite(r)
  {
    if Finite(r) {
      PlanOfFinite(r, r.rampUp + r.duration);
      assert Planned(r, r.rampUp + r.duration) == No;
    }
  }

  /** Whatever rules come and go and whatever calls are made, a rule lets the first `rampUp` accepted calls that get
      to it pass, strikes the next `duration` of them, and none after that. */
  lemma RuleStrikesAsPlanned(steps: seq<Step>, id: nat, k: nat)
    requires AddsFresh(steps) && id in Run(steps) && Finite(Run(steps)[id]) && k < |Verdicts(steps, id)|
    ensures var r := Run(steps)[id];
            var v := if k < r.rampUp then Indeterminate else if k < r.rampUp + r.duration then Yes else No;
            Verdicts(steps, id)[k] == v
  {
    EveryRuleOnPlan(steps, id);
    PlanOfFinite(Run(steps)[id], k);
  }

  /** So a call is struck by the rule with the lowest id among those that accept it and are in their window. */
  lemma StruckInWindow(steps: seq<Step>, id: nat, call: Call)
    requires AddsFresh(steps) && id in Run(steps) && Finite(Run(steps)[id])
    ensures var r := Run(steps)[id];
            Answer(r, call) == Yes <==>
            r.accepts(call) && r.rampUp <= |Verdicts(steps, id)| < r.rampUp + r.duration
  {
    EveryRuleOnPlan(steps, id);
    InWindow(Run(steps)[id], Verdicts(steps, id), call);
  }

  lemma InWindow(r: Rule, verdicts: seq<Verdict>, call: Call)
    requires OnPlan(r, verdicts) && Finite(r)
    ensures Answer(r, call) == Yes <==> r.accepts(call) && r.rampUp <= |verdicts| < r.rampUp + r.duration
  {
  }

  /** At most one rule strikes, and the rules after it do not notice the call. */
  lemma LaterRulesStay(rules: Rules, id: nat, j: nat, call: Call)
    requires Strikes(rules, id, call) && j in rules && j != id
    ensures !Strikes(rules, j, call)
    ensures j > id ==> AfterCall(rules, call)[j] == rules[j]
  {
  }

  /** A rule whose sum overflows strikes every call after its ramp-up. */
  lemma OverflowingRuleNeverExpires(r: Rule, k: nat)
    requires r.rampUp + r.duration >= TWO_32 && r.rampUp <= k < TWO_64 - 1
    ensures Planned(r, k) == Yes
  {
  }

  // ---------- the rules in place ----------

  class ErrorRule {
    const id: nat
    const accepts: Call -> bool
    const rampUp: U32
    const duration: U32
    const effect: int
    var matches: nat
    var expired: bool

    constructor (id: nat, accepts: Call -> bool, rampUp: U32, duration: U32, effect: int)
      ensures Value() == Rule(id, accepts, rampUp, duration, effect, 0, false) && Fresh(Value())
    {
      this.id, this.accepts, this.rampUp, this.duration, this.effect := id, accepts, rampUp, duration, effect;
      matches, expired := 0, false;
    }

    function Value(): Rule
      reads this
    {
      Rule(id, accepts, rampUp, duration, effect, matches, expired)
    }

    /** ErrorBaseRule::match. */
    method Match(call: Call) returns (v: Verdict)
      modifies this
      ensures v == Answer(old(Value()), call) && Value() == Matched(old(Value()), call)
    {
      if accepts(call) && !expired {
        matches := if matches + 1 == TWO_64 then 0 else matches + 1;
        if matches <= rampUp {
          return Indeterminate;
        } else if matches == (if rampUp + duration < TWO_32 then rampUp + duration else rampUp + duration - TWO_32) {
          expired := true;
        }
        return Yes;
      } else {
        return No;
      }
    }
  }

  // ---------- rules in the order of their ids ----------

  ghost predicate Ordered(rules: seq<Rule>)
  {
    forall i, j :: 0 <= i < j < |rules| ==> rules[i].id < rules[j].id
  }

  ghost predicate HasId(rules: seq<Rule>, id: nat)
  {
    exists i :: 0 <= i < |rules| && rules[i].id == id
  }

  ghost function TableOf(rules: seq<Rule>): (table: Rules)
    requires Ordered(rules)
    ensures forall i :: 0 <= i < |rules| ==> rules[i].id in table && table[rules[i].id] == rules[i]
    ensures forall id :: id in table ==> HasId(rules, id)
  {
    map i | 0 <= i < |rules| :: rules[i].id := rules[i]
  }

  /** The first `k` rules have seen the call. */
  ghost function SeenBy(rules: seq<Rule>, k: nat, call: Call): (seen: seq<Rule>)
    requires k <= |rules|
    ensures |seen| == |rules| && forall i :: 0 <= i < |rules| ==> seen[i].id == rules[i].id
  {
    seq(|rules|, i requires 0 <= i < |rules| => if i < k then Matched(rules[i], call) else rules[i])
  }

  lemma NotSeen(rules: seq<Rule>, call: Call)
    ensures SeenBy(rules, 0, call) == rules
  {
  }

  lemma NextSees(rules: seq<Rule>, k: nat, call: Call)
    requires k < |rules|
    ensures SeenBy(rules, k, call)[k] == rules[k]
    ensures SeenBy(rules, k + 1, call) == SeenBy(rules, k, call)[k := Matched(rules[k], call)]
  {
  }

  lemma ReachesInOrder(rules: seq<Rule>, k: nat, call: Call, i: nat)
    requires Ordered(rules) && i < |rules| && k <= |rules|
    requires forall j :: 0 <= j < k ==> Answer(rules[j], call) != Yes
    requires k < |rules| ==> Answer(rules[k], call) == Yes
    ensures Reaches(TableOf(rules), rules[i].id, call) <==> i <= k
  {
    if i > k {
      assert rules[k].id in TableOf(rules);
    }
  }

  lemma TableIs(rules: seq<Rule>, table: Rules)
    requires Ordered(rules)
    requires forall i :: 0 <= i < |rules| ==> rules[i].id in table && table[rules[i].id] == rules[i]
    requires forall id :: id in table ==> HasId(rules, id)
    ensures TableOf(rules) == table
  {
  }

  lemma SeenAt(rules: seq<Rule>, k: nat, call: Call, seen: seq<Rule>, i: nat)
    requires Ordered(rules) && k <= |rules| && seen == SeenBy(rules, if k < |rules| then k + 1 else k, call)
    requires forall j :: 0 <= j < k ==> Answer(rules[j], call) != Yes
    requires k < |rules| ==> Answer(rules[k], call) == Yes
    requires i < |rules|
    ensures AfterCall(TableOf(rules), call)[rules[i].id] == seen[i]
  {
    hide Reaches, Matched, Answer, TableOf;
    ReachesInOrder(rules, k, call, i);
  }

  /** Going through the rules up to the first one that strikes, number `k`, does what the call does to the set of
      them. */
  lemma SeenInOrder(rules: seq<Rule>, k: nat, call: Call, seen: seq<Rule>)
    requires Ordered(rules) && k <= |rules| && seen == SeenBy(rules, if k < |rules| then k + 1 else k, call)
    requires forall j :: 0 <= j < k ==> Answer(rules[j], call) != Yes
    requires k < |rules| ==> Answer(rules[k], call) == Yes
    ensures Ordered(seen) && TableOf(seen) == AfterCall(TableOf(rules), call)
  {
    hide Reaches, Matched, Answer, TableOf, SeenBy;
    var table := TableOf(rules);
    forall i | 0 <= i < |rules|
      ensures AfterCall(table, call)[rules[i].id] == seen[i]
    {
      SeenAt(rules, k, call, seen, i);
    }
    assert Ordered(seen);
    hide Ordered;
    forall id | id in table
      ensures HasId(seen, id)
    {
      assert HasId(rules, id);
      var i :| 0 <= i < |rules| && rules[i].id == id;
      assert seen[i].id == id;
    }
    TableIs(seen, AfterCall(table, call));
  }

  lemma StrikesInOrder(rules: seq<Rule>, k: nat, call: Call)
    requires Ordered(rules) && k <= |rules|
    requires forall j :: 0 <= j < k ==> Answer(rules[j], call) != Yes
    requires k < |rules| ==> Answer(rules[k], call) == Yes
    ensures EffectOf(TableOf(rules), call) == if k < |rules| then Some(rules[k].effect) else None
  {
    var table := TableOf(rules);
    hide TableOf, Answer;
    if k < |rules| {
      ReachesInOrder(rules, k, call, k);
      EffectIs(table, rules[k].id, call);
    } else {
      assert forall id :: id in table ==> HasId(rules, id);
    }
  }

  lemma InsertedOrdered(rules: seq<Rule>, i: nat, r: Rule, more: seq<Rule>)
    requires Ordered(rules) && i <= |rules| && more == rules[..i] + [r] + rules[i..]
    requires forall j :: 0 <= j < i ==> rules[j].id < r.id
    requires i < |rules| ==> r.id < rules[i].id
    ensures Ordered(more) && !HasId(rules, r.id)
  {
  }

  lemma Inserted(rules: seq<Rule>, i: nat, r: Rule, more: seq<Rule>)
    requires Ordered(rules) && i <= |rules| && more == rules[..i] + [r] + rules[i..]
    requires Ordered(more) && !HasId(rules, r.id)
    ensures TableOf(more) == TableOf(rules)[r.id := r]
  {
    hide TableOf, Ordered;
    var table := TableOf(rules)[r.id := r];
    forall id | id in table
      ensures HasId(more, id)
    {
      if id == r.id {
        assert more[i].id == id;
      } else {
        assert HasId(rules, id);
        var j :| 0 <= j < |rules| && rules[j].id == id;
        assert more[if j < i then j else j + 1].id == id;
      }
    }
    forall k | 0 <= k < |more|
      ensures more[k].id in table && table[more[k].id] == more[k]
    {
      if k != i {
        var j := if k < i then k else k - 1;
        assert more[k] == rules[j] && rules[j].id != r.id;
      }
    }
    TableIs(more, table);
  }

  lemma RemovedOrdered(rules: seq<Rule>, i: nat, less: seq<Rule>)
    requires Ordered(rules) && i < |rules| && less == rules[..i] + rules[i + 1..]
    ensures Ordered(less) && !HasId(less, rules[i].id)
  {
  }

  lemma Removed(rules: seq<Rule>, i: nat, less: seq<Rule>)
    requires Ordered(rules) && i < |rules| && less == rules[..i] + rules[i + 1..]
    requires Ordered(less) && !HasId(less, rules[i].id)
    ensures TableOf(less) == TableOf(rules) - {rules[i].id}
  {
    hide TableOf, Ordered;
    var table := TableOf(rules) - {rules[i].id};
    forall id | id in table
      ensures HasId(less, id)
    {
      assert HasId(rules, id);
      var j :| 0 <= j < |rules| && rules[j].id == id;
      assert less[if j < i then j else j - 1].id == id;
    }
    forall k | 0 <= k < |less|
      ensures less[k].id in table && table[less[k].id] == less[k]
    {
      assert less[k] == rules[if k < i then k else k + 1];
    }
    TableIs(less, table);
  }

  /** The rules of one kind, which are kept in the order of their ids. */
  class RuleTable {
    var rules: seq<ErrorRule>

    ghost function Values(): (v: seq<Rule>)
      reads this, rules
      ensures |v| == |rules| && forall i :: 0 <= i < |rules| ==> v[i] == rules[i].Value()
    {
      seq(|rules|, i requires 0 <= i < |rules| reads this, rules => rules[i].Value())
    }

    ghost predicate Valid()
      reads this, rules
    {
      Ordered(Values())
    }

    ghost function Table(): Rules
      requires Valid()
      reads this, rules
    {
      TableOf(Values())
    }

    constructor ()
      ensures Valid() && Table() == map[]
    {
      rules := [];
    }

    /** The place of the first rule whose id is not below `id`. */
    method LowerBound(id: nat) returns (i: nat)
      requires Valid()
      ensures i <= |rules| && (forall j :: 0 <= j < i ==> rules[j].id < id) && (i < |rules| ==> id <= rules[i].id)
    {
      i := 0;
      while i < |rules| && rules[i].id < id
        invariant i <= |rules| && forall j :: 0 <= j < i ==> rules[j].id < id
      {
        i := i + 1;
      }
    }

    /** addFailureRule and addDelayRule; a rule whose id is taken is refused. */
    method Add(r: ErrorRule) returns (ok: bool)
      requires Valid()
      modifies this
      ensures Valid() && Table() == Next(old(Table()), Step.Add(r.Value()))
      ensures ok <==> r.id !in old(Table())
    {
      hide TableOf;
      ghost var was := Values();
      var i := LowerBound(r.id);
      ok := i == |rules| || rules[i].id != r.id;
      if ok {
        rules := rules[..i] + [r] + rules[i..];
        InsertedOrdered(was, i, r.Value(), Values());
        Inserted(was, i, r.Value(), Values());
      } else {
        assert was[i].id in TableOf(was);
      }
    }

    /** removeFailureRule and removeDelayRule; an unknown id is refused. */
    method Remove(id: nat) returns (ok: bool)
      requires Valid()
      modifies this
      ensures Valid() && Table() == Next(old(Table()), Step.Remove(id))
      ensures ok <==> id in old(Table())
    {
      hide TableOf;
      ghost var was := Values();
      var i := LowerBound(id);
      ok := i < |rules| && rules[i].id == id;
      if ok {
        rules := rules[..i] + rules[i + 1..];
        RemovedOrdered(was, i, Values());
        Removed(was, i, Values());
      } else {
        assert !HasId(was, id);
        assert TableOf(was) - {id} == TableOf(was);
      }
    }

    /** maybeInjectFailure_ and maybeInjectDelay_: what the first rule that strikes does. */
    method Inject(call: Call) returns (effect: Option<int>)
      requires Valid()
      modifies rules
      ensures Valid() && rules == old(rules) && Table() == AfterCall(old(Table()), call)
      ensures effect == EffectOf(old(Table()), call)
    {
      ghost var was := Values();
      assert forall i, j :: 0 <= i < j < |rules| ==> was[i].id < was[j].id && rules[i] != rules[j];
      hide Matched, Answer, AfterCall, EffectOf, TableOf, Ordered, SeenBy;
      NotSeen(was, call);
      for k := 0 to |rules|
        invariant Values() == SeenBy(was, k, call)
        invariant forall i :: 0 <= i < k ==> Answer(was[i], call) != Yes
      {
        NextSees(was, k, call);
        var v := rules[k].Match(call);
        assert Values() == SeenBy(was, k + 1, call);
        if v == Yes {
          SeenInOrder(was, k, call, Values());
          StrikesInOrder(was, k, call);
          return Some(rules[k].effect);
        }
      }
      SeenInOrder(was, |rules|, call, Values());
      StrikesInOrder(was, |rules|, call);
      return None;
    }
  }

  /** maybeInjectError_: the delay comes first, and the failure is a negative error code. */
  method MaybeInjectError(delays: RuleTable, failures: RuleTable, call: Call) returns (delay: int, error: int)
    requires delays.Valid() && failures.Valid() && delays != failures
    requires forall f :: f in failures.rules ==> f !in delays.rules
    modifies delays.rules, failures.rules
    ensures delays.Valid() && failures.Valid()
    ensures delays.Table() == AfterCall(old(delays.Table()), call)
    ensures failures.Table() == AfterCall(old(failures.Table()), call)
    ensures IsEffect(old(delays.Table()), call, delay)
    ensures IsEffect(old(failures.Table()), call, -error)
  {
    hide *;
    EffectOrZero(delays.Table(), call);
    EffectOrZero(failures.Table(), call);
    assert forall i :: 0 <= i < |failures.rules| ==> failures.rules[i] !in delays.rules;
    var d := delays.Inject(call);
    var f := failures.Inject(call);
    return OrZero(d), -OrZero(f);
  }
}

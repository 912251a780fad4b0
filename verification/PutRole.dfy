/**
 The put role of `src/xnode.rs`: one loop that sends, takes acknowledgements, marks each trial
 at its own T, hedges, and reads back, until its comparison has what it needs or never can.
 */
module PutRole {
  import opened Base

  // Times are readings of one clock that never goes backwards, in any fixed unit.

  datatype Arm = Control | Hedge

  datatype Plan = Plan(key: string, arm: Arm, size: nat)

  datatype Trial = Trial(
    plan: Plan, t0: int, ack: Option<int>, confirm: Option<int>,
    unackedAtT: Option<bool>, hedged: bool, marked: bool)

  /** `puts` lists, by trial, every put handed to the node. */
  datatype State = State(
    trials: seq<Trial>, toSend: nat, next: nat, clock: int, puts: seq<nat>, hedgedBytes: nat)

  /** What never changes in a run: the plan, T if there is one, the code riding on every put. */
  datatype Config = Config(plan: seq<Plan>, hedge: Option<nat>, codeLen: nat)

  const START: State := State([], 0, 0, 0, [], 0)

  datatype Action =
    | Send(now: int)
    | Ack(key: string, now: int)
    | Mark(now: int)
    | ReadBack(served: bool, now: int)

  /* ---------- what each step of the loop does ---------- */

  function NewTrial(c: Config, p: Plan, now: int): Trial {
    Trial(p, now, None, None, None, false, c.hedge.None?)
  }

  function IndexOfKey(ts: seq<Trial>, key: string): (i: nat)
    ensures i <= |ts|
    ensures i < |ts| ==> ts[i].plan.key == key
    ensures forall j :: 0 <= j < i ==> ts[j].plan.key != key
  {
    if ts == [] || ts[0].plan.key == key then 0 else 1 + IndexOfKey(ts[1..], key)
  }

  /** The first acknowledgement of the first trial with this key. */
  function Acked(t: Trial, now: int): Trial {
    if t.ack.None? then t.(ack := Some(now - t.t0)) else t
  }

  predicate Due(c: Config, t: Trial, now: int) {
    c.hedge.Some? && !t.marked && now >= t.t0 + c.hedge.value
  }

  predicate Fires(c: Config, t: Trial, now: int) {
    Due(c, t, now) && t.ack.None? && t.plan.arm == Hedge
  }

  function Marked(c: Config, t: Trial, now: int): Trial {
    if Due(c, t, now) then
      t.(marked := true, unackedAtT := Some(t.ack.None?), hedged := t.ack.None? && t.plan.arm == Hedge)
    else t
  }

  function MarkedAll(c: Config, ts: seq<Trial>, now: int): (r: seq<Trial>)
    ensures |r| == |ts| && forall i :: 0 <= i < |ts| ==> r[i] == Marked(c, ts[i], now)
  {
    seq(|ts|, i requires 0 <= i < |ts| => Marked(c, ts[i], now))
  }

  /** The re-puts one marking pass sends, by trial, and the bytes they carry. */
  function Fired(c: Config, ts: seq<Trial>, now: int): seq<nat> {
    if ts == [] then []
    else Fired(c, ts[..|ts| - 1], now) + (if Fires(c, ts[|ts| - 1], now) then [|ts| - 1] else [])
  }

  /** A re-put is the block's own state, one byte longer than its body, and the code. */
  function PutBytes(c: Config, t: Trial): nat { t.plan.size + 1 + c.codeLen }

  function FiredBytes(c: Config, ts: seq<Trial>, now: int): nat {
    if ts == [] then 0
    else FiredBytes(c, ts[..|ts| - 1], now)
         + (if Fires(c, ts[|ts| - 1], now) then PutBytes(c, ts[|ts| - 1]) else 0)
  }

  /** How many places the read-back looks at before one without a confirmation; all of them if none. */
  function Looks(ts: seq<Trial>, next: nat, looked: nat): (n: nat)
    requires looked <= |ts|
    ensures looked <= n <= |ts|
    decreases |ts| - looked
  {
    if looked == |ts| || ts[(next + looked) % |ts|].confirm.None? then looked
    else Looks(ts, next, looked + 1)
  }

  function Confirmed(t: Trial, served: bool, now: int): Trial {
    if served then t.(confirm := Some(now - t.t0)) else t
  }

  function Step(c: Config, s: State, a: Action): State {
    match a
    case Send(now) =>
      if s.toSend < |c.plan| then
        s.(trials := s.trials + [NewTrial(c, c.plan[s.toSend], now)],
           toSend := s.toSend + 1, clock := now, puts := s.puts + [|s.trials|])
      else s.(clock := now)
    case Ack(key, now) =>
      var i := IndexOfKey(s.trials, key);
      s.(clock := now,
         trials := if i < |s.trials| then s.trials[i := Acked(s.trials[i], now)] else s.trials)
    case Mark(now) =>
      s.(clock := now, trials := MarkedAll(c, s.trials, now),
         puts := s.puts + Fired(c, s.trials, now),
         hedgedBytes := s.hedgedBytes + FiredBytes(c, s.trials, now))
    case ReadBack(served, now) =>
      var n := Looks(s.trials, s.next, 0);
      if n == |s.trials| then s.(clock := now, next := s.next + n)
      else
        var i := (s.next + n) % |s.trials|;
        s.(clock := now, next := s.next + n + 1,
           trials := s.trials[i := Confirmed(s.trials[i], served, now)])
  }

  function Exec(c: Config, s: State, actions: seq<Action>): State
    decreases |actions|
  {
    if actions == [] then s else Exec(c, Step(c, s, actions[0]), actions[1..])
  }

  /** The clock never goes backwards. */
  predicate Forward(s: State, actions: seq<Action>)
    decreases |actions|
  {
    actions == [] || (actions[0].now >= s.clock && Forward(s.(clock := actions[0].now), actions[1..]))
  }

  class Role {
    const c: Config
    var trials: seq<Trial>
    var toSend: nat
    var next: nat
    ghost var clock: int
    ghost var puts: seq<nat>
    var hedgedBytes: nat

    ghost function Now(): State
      reads this
    {
      State(trials, toSend, next, clock, puts, hedgedBytes)
    }

    constructor (c: Config)
      ensures Now() == START && this.c == c
    {
      this.c := c;
      trials, toSend, next, clock, puts, hedgedBytes := [], 0, 0, 0, [], 0;
    }

    /** One send per pass, so a trial's clock starts when its own bytes go out. */
    method SendNext(now: int)
      modifies this
      ensures Now() == Step(c, old(Now()), Send(now))
    {
      clock := now;
      if toSend < |c.plan| {
        puts := puts + [|trials|];
        trials := trials + [NewTrial(c, c.plan[toSend], now)];
        toSend := toSend + 1;
      }
    }

    method TakeAck(key: string, now: int)
      modifies this
      ensures Now() == Step(c, old(Now()), Ack(key, now))
    {
      clock := now;
      var i := IndexOfKey(trials, key);
      if i < |trials| && trials[i].ack.None? {
        trials := trials[i := trials[i].(ack := Some(now - trials[i].t0))];
      }
    }

    /** Mark every trial whose T has come, in both arms; only the hedge arm re-puts. */
    method MarkDue(now: int)
      modifies this
      ensures Now() == Step(c, old(Now()), Mark(now))
    {
      clock := now;
      ghost var before := trials;
      for i := 0 to |trials|
        invariant |trials| == |before| && toSend == old(toSend) && next == old(next) && clock == now
        invariant forall j :: 0 <= j < i ==> trials[j] == Marked(c, before[j], now)
        invariant forall j :: i <= j < |trials| ==> trials[j] == before[j]
        invariant puts == old(puts) + Fired(c, before[..i], now)
        invariant hedgedBytes == old(hedgedBytes) + FiredBytes(c, before[..i], now)
      {
        assert before[..i + 1][..i] == before[..i];
        var t := trials[i];
        if c.hedge.None? || t.marked || now < t.t0 + c.hedge.value {
          continue;
        }
        var still := t.ack.None?;
        var fires := still && t.plan.arm == Hedge;
        if fires {
          puts := puts + [i];
          hedgedBytes := hedgedBytes + PutBytes(c, t);
        }
        trials := trials[i := t.(marked := true, unackedAtT := Some(still), hedged := fires)];
      }
      assert before[..|before|] == before;
      assert trials == MarkedAll(c, before, now);
    }

    /** One read-back attempt per pass, round-robin over the trials that have none yet. */
    method ReadBackOne(served: bool, now: int)
      modifies this
      ensures Now() == Step(c, old(Now()), ReadBack(served, now))
    {
      clock := now;
      var looked := 0;
      while looked < |trials|
        invariant 0 <= looked <= |trials|
        invariant Now() == old(Now()).(clock := now, next := old(next) + looked)
        invariant Looks(trials, old(next), 0) == Looks(trials, old(next), looked)
      {
        var i := next % |trials|;
        next := next + 1;
        if trials[i].confirm.None? {
          trials := trials[i := Confirmed(trials[i], served, now)];
          return;
        }
        looked := looked + 1;
      }
    }
  }

  /* ---------- what every run keeps ---------- */

  ghost predicate TrialOk(c: Config, t: Trial, clock: int) {
    && (t.hedged <==> t.plan.arm == Hedge && t.unackedAtT == Some(true))
    && (t.unackedAtT.Some? <==> t.marked && c.hedge.Some?)
    && (c.hedge.None? ==> t.marked)
    && t.t0 <= clock
    && (t.unackedAtT.Some? ==> clock >= t.t0 + c.hedge.value)
    && (t.unackedAtT == Some(true) && t.ack.Some? ==> t.ack.value >= c.hedge.value)
    && (t.unackedAtT == Some(false) ==> t.ack.Some?)
  }

  function Fires1(t: Trial): nat { if t.hedged then 1 else 0 }

  function HedgedCost(c: Config, ts: seq<Trial>): nat {
    if ts == [] then 0
    else HedgedCost(c, ts[..|ts| - 1]) + (if ts[|ts| - 1].hedged then ts[|ts| - 1].plan.size + 1 + c.codeLen else 0)
  }

  ghost predicate StateOk(c: Config, s: State) {
    && s.toSend == |s.trials| <= |c.plan|
    && (forall i :: 0 <= i < |s.trials| ==> TrialOk(c, s.trials[i], s.clock) && s.trials[i].plan == c.plan[i])
  }

  /** Each trial was put once, and once more exactly when it was hedged. */
  ghost predicate PutsOk(s: State) {
    forall i: nat :: multiset(s.puts)[i] == PutsOf(s, i)
  }

  lemma {:induction false} TrialsStep(c: Config, s: State, a: Action)
    requires StateOk(c, s) && a.now >= s.clock
    ensures StateOk(c, Step(c, s, a))
  {
    var t := Step(c, s, a);
    forall i | 0 <= i < |s.trials| ensures TrialOk(c, t.trials[i], t.clock) && t.trials[i].plan == c.plan[i] {}
  }

  lemma {:induction false} FiredCount(c: Config, ts: seq<Trial>, now: int, i: nat)
    ensures multiset(Fired(c, ts, now))[i] == if i < |ts| && Fires(c, ts[i], now) then 1 else 0
  {
    if ts != [] {
      var last := |ts| - 1;
      var before := Fired(c, ts[..last], now);
      FiredCount(c, ts[..last], now, i);
      var one: seq<nat> := [last];
      assert multiset(before + one) == multiset(before) + multiset(one);
      assert i < last ==> ts[..last][i] == ts[i];
    }
  }

  function PutsOf(s: State, i: nat): nat {
    if i < |s.trials| then 1 + Fires1(s.trials[i]) else 0
  }

  /** Only a marking pass changes how often an existing trial has been put. */
  lemma {:induction false} PutsOfStep(c: Config, s: State, a: Action, i: nat)
    requires StateOk(c, s) && a.now >= s.clock
    ensures PutsOf(Step(c, s, a), i) == PutsOf(s, i) +
              match a
              case Send(_) => if s.toSend < |c.plan| && i == |s.trials| then 1 else 0
              case Mark(now) => if i < |s.trials| && Fires(c, s.trials[i], now) then 1 else 0
              case _ => 0
  {
    if i < |s.trials| {
      assert TrialOk(c, s.trials[i], s.clock);
    }
  }

  lemma {:induction false} PutsStep(c: Config, s: State, a: Action)
    requires StateOk(c, s) && PutsOk(s) && a.now >= s.clock
    ensures PutsOk(Step(c, s, a))
  {
    var t := Step(c, s, a);
    forall i: nat ensures multiset(t.puts)[i] == PutsOf(t, i) {
      assert multiset(s.puts)[i] == PutsOf(s, i);
      PutsOfStep(c, s, a, i);
      if a.Mark? {
        FiredCount(c, s.trials, a.now, i);
      }
    }
  }

  lemma {:induction false} CostUpdate(c: Config, ts: seq<Trial>, us: seq<Trial>)
    requires |us| == |ts|
    requires forall i :: 0 <= i < |ts| ==> us[i].hedged == ts[i].hedged && us[i].plan == ts[i].plan
    ensures HedgedCost(c, us) == HedgedCost(c, ts)
  {
    if ts != [] {
      CostUpdate(c, ts[..|ts| - 1], us[..|us| - 1]);
    }
  }

  lemma {:induction false} CostMarked(c: Config, ts: seq<Trial>, now: int)
    requires forall i :: 0 <= i < |ts| ==> TrialOk(c, ts[i], now)
    ensures HedgedCost(c, MarkedAll(c, ts, now)) == HedgedCost(c, ts) + FiredBytes(c, ts, now)
  {
    if ts != [] {
      var last := |ts| - 1;
      CostMarked(c, ts[..last], now);
      assert MarkedAll(c, ts, now)[..last] == MarkedAll(c, ts[..last], now);
      assert TrialOk(c, ts[last], now);
    }
  }

  lemma {:induction false} BytesStep(c: Config, s: State, a: Action)
    requires StateOk(c, s) && a.now >= s.clock && s.hedgedBytes == HedgedCost(c, s.trials)
    ensures Step(c, s, a).hedgedBytes == HedgedCost(c, Step(c, s, a).trials)
  {
    var t := Step(c, s, a);
    if a.Mark? {
      CostMarked(c, s.trials, a.now);
    } else if a.Send? && s.toSend < |c.plan| {
      assert t.trials[..|s.trials|] == s.trials;
    } else {
      CostUpdate(c, s.trials, t.trials);
    }
  }

  /**
   In every run: `hedged` is exactly a hedge-arm trial marked unacknowledged, an unacknowledged
   mark means any later acknowledgement came at T or after, each trial is put once and once more
   exactly when hedged, and the bytes charged to hedges are those of the hedged trials.
   */
  lemma {:induction false} EveryRunKeepsItsMarks(c: Config, s: State, actions: seq<Action>)
    requires Forward(s, actions)
    requires StateOk(c, s) && PutsOk(s) && s.hedgedBytes == HedgedCost(c, s.trials)
    ensures var t := Exec(c, s, actions);
            StateOk(c, t) && PutsOk(t) && t.hedgedBytes == HedgedCost(c, t.trials)
    decreases |actions|
  {
    if actions != [] {
      var a := actions[0];
      TrialsStep(c, s, a);
      PutsStep(c, s, a);
      BytesStep(c, s, a);
      ForwardStep(c, s, a, actions[1..]);
      EveryRunKeepsItsMarks(c, Step(c, s, a), actions[1..]);
    }
  }

  lemma {:induction false} ForwardStep(c: Config, s: State, a: Action, rest: seq<Action>)
    requires Forward(s.(clock := a.now), rest)
    ensures Forward(Step(c, s, a), rest)
    decreases |rest|
  {
    ClockOnly(s.(clock := a.now), Step(c, s, a), rest);
  }

  lemma {:induction false} ClockOnly(s: State, t: State, rest: seq<Action>)
    requires s.clock == t.clock && Forward(s, rest)
    ensures Forward(t, rest)
    decreases |rest|
  {
    if rest != [] {
      ClockOnly(s.(clock := rest[0].now), t.(clock := rest[0].now), rest[1..]);
    }
  }

  /** A run starts with all of this true. */
  lemma StartOk(c: Config, clock: int)
    ensures StateOk(c, START.(clock := clock)) && PutsOk(START) && START.hedgedBytes == HedgedCost(c, [])
  {
  }

  /* ---------- marks are final, and so is the verdict they give ---------- */

  /** Once marked, nothing about a trial's mark ever changes again. */
  ghost predicate MarkKept(before: Trial, after: Trial) {
    after.plan == before.plan && after.t0 == before.t0
    && (before.marked ==> after.marked && after.unackedAtT == before.unackedAtT && after.hedged == before.hedged)
    && (before.ack.Some? ==> after.ack == before.ack)
  }

  lemma {:induction false} MarksAreFinal(c: Config, s: State, actions: seq<Action>, i: nat)
    requires i < |s.trials|
    ensures i < |Exec(c, s, actions).trials|
    ensures MarkKept(s.trials[i], Exec(c, s, actions).trials[i])
    decreases |actions|
  {
    if actions != [] {
      MarksAreFinal(c, Step(c, s, actions[0]), actions[1..], i);
    }
  }

  predicate InPopulation(t: Trial, arm: Arm) { t.plan.arm == arm && t.unackedAtT == Some(true) }

  function Conditioned(ts: seq<Trial>, arm: Arm): nat {
    if ts == [] then 0
    else Conditioned(ts[..|ts| - 1], arm) + (if InPopulation(ts[|ts| - 1], arm) then 1 else 0)
  }

  /** The places, before the `n`-th, of an arm's trials that were unacknowledged at T. */
  ghost function Places(ts: seq<Trial>, arm: Arm, n: nat): set<int>
    requires n <= |ts|
  {
    set i | 0 <= i < n && ts[i].plan.arm == arm && ts[i].unackedAtT == Some(true)
  }

  lemma {:induction false} ConditionedIsTheirNumber(ts: seq<Trial>, arm: Arm, n: nat)
    requires n <= |ts|
    ensures Conditioned(ts[..n], arm) == |Places(ts, arm, n)|
  {
    if n > 0 {
      ConditionedIsTheirNumber(ts, arm, n - 1);
      assert ts[..n][..n - 1] == ts[..n - 1];
      OneMorePlace(ts, arm, n - 1);
    }
  }

  lemma OneMorePlace(ts: seq<Trial>, arm: Arm, n: nat)
    requires n < |ts|
    ensures |Places(ts, arm, n + 1)| == |Places(ts, arm, n)| + if InPopulation(ts[n], arm) then 1 else 0
  {
    var before, after := Places(ts, arm, n), Places(ts, arm, n + 1);
    if InPopulation(ts[n], arm) {
      assert after == before + {n};
    } else {
      assert after == before;
    }
  }

  lemma {:induction false} ConditionedGrows(ts: seq<Trial>, us: seq<Trial>, arm: Arm)
    requires |ts| <= |us|
    requires forall i :: 0 <= i < |ts| ==> (InPopulation(ts[i], arm) ==> InPopulation(us[i], arm))
    ensures Conditioned(ts, arm) <= Conditioned(us, arm)
    decreases |us|
  {
    if |us| > |ts| {
      ConditionedGrows(ts, us[..|us| - 1], arm);
    } else if us != [] {
      ConditionedGrows(ts[..|ts| - 1], us[..|us| - 1], arm);
    }
  }

  /** The conditioned population of an arm never falls. */
  lemma {:induction false} ConditionedNeverFalls(c: Config, s: State, actions: seq<Action>, arm: Arm)
    requires StateOk(c, s)
    ensures Conditioned(s.trials, arm) <= Conditioned(Exec(c, s, actions).trials, arm)
  {
    var t := Exec(c, s, actions);
    TrialsKeepCount(c, s, actions);
    forall i | 0 <= i < |s.trials| ensures InPopulation(s.trials[i], arm) ==> InPopulation(t.trials[i], arm) {
      MarksAreFinal(c, s, actions, i);
      assert TrialOk(c, s.trials[i], s.clock);
    }
    ConditionedGrows(s.trials, t.trials, arm);
  }

  lemma {:induction false} TrialsKeepCount(c: Config, s: State, actions: seq<Action>)
    ensures |s.trials| <= |Exec(c, s, actions).trials|
    ensures s.toSend >= |c.plan| ==> |Exec(c, s, actions).trials| == |s.trials|
    decreases |actions|
  {
    if actions != [] {
      TrialsKeepCount(c, Step(c, s, actions[0]), actions[1..]);
    }
  }

  /** Everything that can still raise a population has happened. */
  predicate Exhausted(c: Config, s: State) {
    s.toSend == |c.plan| && forall i :: 0 <= i < |s.trials| ==> s.trials[i].marked
  }

  predicate Milestone(s: State, until: nat) {
    until > 0 && Conditioned(s.trials, Control) >= until && Conditioned(s.trials, Hedge) >= until
  }

  /**
   The report that a milestone is out of reach is true: once every trial is sent and marked,
   no continuation changes either population.
   */
  lemma {:induction false} UnreachableIsTrue(c: Config, s: State, actions: seq<Action>, until: nat)
    requires StateOk(c, s) && Exhausted(c, s) && !Milestone(s, until)
    ensures !Milestone(Exec(c, s, actions), until)
    ensures forall arm :: Conditioned(Exec(c, s, actions).trials, arm) == Conditioned(s.trials, arm)
  {
    var t := Exec(c, s, actions);
    TrialsKeepCount(c, s, actions);
    forall arm ensures Conditioned(t.trials, arm) == Conditioned(s.trials, arm) {
      forall i | 0 <= i < |s.trials| ensures InPopulation(s.trials[i], arm) == InPopulation(t.trials[i], arm) {
        MarksAreFinal(c, s, actions, i);
      }
      ConditionedGrows(s.trials, t.trials, arm);
      ConditionedGrows(t.trials, s.trials, arm);
    }
  }

  /** What a pass decides once its four steps are done. */
  datatype Decision = Go | AtMilestone | OutOfReach | AllDone

  predicate Settled(s: State) {
    forall i :: 0 <= i < |s.trials| ==> s.trials[i].confirm.Some? && s.trials[i].ack.Some?
  }

  /**
   Whether to stop. A milestone is reported when it is reached, and out of reach only when no
   continuation whatever could reach it; while either arm can still gain a trial the run goes on.
   */
  method Decide(c: Config, s: State, until: nat, waitedEnough: bool) returns (d: Decision)
    requires StateOk(c, s)
    ensures d.AtMilestone? <==>
              && until > 0
              && |set i | 0 <= i < |s.trials| && s.trials[i].plan.arm == Control
                          && s.trials[i].unackedAtT == Some(true)| >= until
              && |set i | 0 <= i < |s.trials| && s.trials[i].plan.arm == Hedge
                          && s.trials[i].unackedAtT == Some(true)| >= until
    ensures d.OutOfReach? || d.AllDone? <==>
              && !d.AtMilestone?
              && s.toSend == |c.plan|
              && (forall i :: 0 <= i < |s.trials| ==> s.trials[i].marked)
              && (waitedEnough || forall i :: 0 <= i < |s.trials| ==>
                                    s.trials[i].confirm.Some? && s.trials[i].ack.Some?)
    ensures d.OutOfReach? ==> until > 0 && forall actions :: !Milestone(Exec(c, s, actions), until)
    ensures d.AllDone? ==> until == 0
  {
    forall arm ensures Conditioned(s.trials, arm) == |Places(s.trials, arm, |s.trials|)| {
      ConditionedIsTheirNumber(s.trials, arm, |s.trials|);
      assert s.trials[..|s.trials|] == s.trials;
    }
    assert Places(s.trials, Control, |s.trials|) == set i | 0 <= i < |s.trials| && s.trials[i].plan.arm == Control
                                                             && s.trials[i].unackedAtT == Some(true);
    assert Places(s.trials, Hedge, |s.trials|) == set i | 0 <= i < |s.trials| && s.trials[i].plan.arm == Hedge
                                                           && s.trials[i].unackedAtT == Some(true);
    if Milestone(s, until) {
      return AtMilestone;
    }
    if !Exhausted(c, s) || !(Settled(s) || waitedEnough) {
      return Go;
    }
    forall actions ensures !Milestone(Exec(c, s, actions), until) {
      UnreachableIsTrue(c, s, actions, until);
    }
    d := if until > 0 then OutOfReach else AllDone;
  }

  /* ---------- what a mark says about the acknowledgement ---------- */

  /** The acknowledgement that reaches this trial: of its key, and of no earlier trial with it. */
  predicate Acks(s: State, i: nat, a: Action) { a.Ack? && IndexOfKey(s.trials, a.key) == i }

  /** The first action that acknowledges the trial; the number of actions when none does. */
  function FirstAck(s: State, i: nat, actions: seq<Action>): (k: nat)
    ensures k <= |actions|
    ensures k < |actions| ==> Acks(s, i, actions[k])
    ensures forall j :: 0 <= j < k ==> !Acks(s, i, actions[j])
  {
    if actions == [] || Acks(s, i, actions[0]) then 0 else 1 + FirstAck(s, i, actions[1..])
  }

  /** The first marking pass that comes at the trial's T or later; the number of actions when none does. */
  function FirstDue(due: int, actions: seq<Action>): (m: nat)
    ensures m <= |actions|
    ensures m < |actions| ==> actions[m].Mark? && actions[m].now >= due
    ensures forall j :: 0 <= j < m ==> !(actions[j].Mark? && actions[j].now >= due)
  {
    if actions == [] || (actions[0].Mark? && actions[0].now >= due) then 0 else 1 + FirstDue(due, actions[1..])
  }

  /** Trials are only ever appended, so an earlier trial of a key stays the first. */
  lemma {:induction false} SameTarget(c: Config, s: State, a: Action, i: nat, b: Action)
    requires i < |s.trials|
    ensures Acks(Step(c, s, a), i, b) <==> Acks(s, i, b)
  {
    if b.Ack? {
      var ts, us := s.trials, Step(c, s, a).trials;
      assert forall j :: 0 <= j < |ts| ==> us[j].plan == ts[j].plan;
      var k, l := IndexOfKey(ts, b.key), IndexOfKey(us, b.key);
      if k == i {
        assert us[i].plan.key == b.key;
      }
    }
  }

  lemma {:induction false} SameFirstAck(c: Config, s: State, a: Action, i: nat, actions: seq<Action>)
    requires i < |s.trials|
    ensures FirstAck(Step(c, s, a), i, actions) == FirstAck(s, i, actions)
  {
    if actions != [] {
      SameTarget(c, s, a, i, actions[0]);
      SameFirstAck(c, s, a, i, actions[1..]);
    }
  }

  /** One action on one trial that has not been marked. */
  lemma {:induction false} UnmarkedStep(c: Config, s: State, a: Action, i: nat)
    requires i < |s.trials| && !s.trials[i].marked && c.hedge.Some?
    ensures i < |Step(c, s, a).trials|
    ensures var t, u := s.trials[i], Step(c, s, a).trials[i];
            && u.plan == t.plan && u.t0 == t.t0
            && u.ack == (if Acks(s, i, a) && t.ack.None? then Some(a.now - t.t0) else t.ack)
            && (u.marked <==> a.Mark? && a.now >= t.t0 + c.hedge.value)
            && (u.marked ==> u.unackedAtT == Some(t.ack.None?))
            && (!u.marked ==> u.unackedAtT == t.unackedAtT)
  {
  }

  /** The acknowledgement a trial ends with, from the one it has and the actions still to come. */
  function AckAfter(s: State, i: nat, actions: seq<Action>): Option<int>
    requires i < |s.trials|
  {
    var k := FirstAck(s, i, actions);
    if s.trials[i].ack.Some? then s.trials[i].ack
    else if k < |actions| then Some(actions[k].now - s.trials[i].t0) else None
  }

  lemma {:induction false} AckStep(c: Config, s: State, a: Action, i: nat)
    requires i < |s.trials|
    ensures i < |Step(c, s, a).trials|
    ensures var t, u := s.trials[i], Step(c, s, a).trials[i];
            && u.t0 == t.t0
            && u.ack == if Acks(s, i, a) && t.ack.None? then Some(a.now - t.t0) else t.ack
  {
  }

  lemma {:induction false} AckAfterStep(c: Config, s: State, a: Action, rest: seq<Action>, i: nat)
    requires i < |s.trials|
    ensures AckAfter(Step(c, s, a), i, rest) == AckAfter(s, i, [a] + rest)
  {
    var actions := [a] + rest;
    assert actions[0] == a && actions[1..] == rest;
    AckStep(c, s, a, i);
    SameFirstAck(c, s, a, i, rest);
    assert FirstAck(s, i, actions) == if Acks(s, i, a) then 0 else 1 + FirstAck(s, i, rest);
  }

  lemma {:induction false} AckIsTheFirst(c: Config, s: State, actions: seq<Action>, i: nat)
    requires i < |s.trials|
    ensures i < |Exec(c, s, actions).trials|
    ensures Exec(c, s, actions).trials[i].ack == AckAfter(s, i, actions)
    ensures Exec(c, s, actions).trials[i].t0 == s.trials[i].t0
    decreases |actions|
  {
    if actions != [] {
      var a, rest := actions[0], actions[1..];
      AckStep(c, s, a, i);
      AckIsTheFirst(c, Step(c, s, a), rest, i);
      AckAfterStep(c, s, a, rest, i);
      assert actions == [a] + rest;
    }
  }

  /**
   From any state on, for a trial not yet marked: it is marked by the first due marking pass, and
   as unacknowledged exactly when nothing acknowledged it before that pass.
   */
  lemma {:induction false} MarkIsOfTheFirstDuePass(c: Config, s: State, actions: seq<Action>, i: nat)
    requires i < |s.trials| && !s.trials[i].marked && c.hedge.Some? && s.trials[i].unackedAtT.None?
    ensures i < |Exec(c, s, actions).trials|
    ensures var t, m := Exec(c, s, actions).trials[i], FirstDue(s.trials[i].t0 + c.hedge.value, actions);
            && (t.marked <==> m < |actions|)
            && t.unackedAtT ==
                 if m < |actions| then Some(s.trials[i].ack.None? && FirstAck(s, i, actions) > m) else None
    decreases |actions|
  {
    if actions != [] {
      var a, rest := actions[0], actions[1..];
      var v := Step(c, s, a);
      UnmarkedStep(c, s, a, i);
      if v.trials[i].marked {
        MarksAreFinal(c, v, rest, i);
      } else {
        SameFirstAck(c, s, a, i, rest);
        MarkIsOfTheFirstDuePass(c, v, rest, i);
      }
    }
  }

  /** What a whole run makes of a trial: its mark, and the acknowledgement beside it. */
  ghost predicate MarkedByTheFirstDuePass(t: Trial, k: nat, m: nat, after: seq<Action>, due: int, wait: nat) {
    && (t.marked <==> m < |after|)
    && (t.unackedAtT == Some(true) <==> m < |after| && m < k)
    && (t.unackedAtT == Some(false) && t.ack.Some? && t.ack.value >= wait <==> k < m < |after| && after[k].now >= due)
  }

  /**
   From any state on, so in every run, for a trial sent at `now` and whatever actions follow: it is
   marked unacknowledged exactly when the first marking pass due for it comes before any
   acknowledgement of it. And it was acknowledged at T or later and yet marked acknowledged exactly
   when its first acknowledgement came at T or later and before that pass.
   */
  lemma {:induction false} MarkedUnackedIff(c: Config, s0: State, now: int, after: seq<Action>)
    requires s0.toSend < |c.plan| && c.hedge.Some?
    ensures var s := Step(c, s0, Send(now));
            var end, i, due := Exec(c, s, after), |s0.trials|, now + c.hedge.value;
            && i == |s.trials| - 1 && i < |end.trials| && end.trials[i].plan == s.trials[i].plan
            && MarkedByTheFirstDuePass(
                 end.trials[i], FirstAck(s, i, after), FirstDue(due, after), after, due, c.hedge.value)
  {
    var s := Step(c, s0, Send(now));
    var i := |s0.trials|;
    MarkIsOfTheFirstDuePass(c, s, after, i);
    AckIsTheFirst(c, s, after, i);
    MarksAreFinal(c, s, after, i);
  }

  /** The gap is real: an acknowledgement between T and the pass that marks it. */
  lemma {:induction false} AckedLateCanBeMarkedAcked(c: Config, key: string)
    requires c == Config([Plan(key, Control, 0)], Some(10), 0)
    ensures var ts := Exec(c, START, [Send(0), Mark(5), Ack(key, 12), Mark(14)]).trials;
            |ts| == 1 && ts[0].ack == Some(12) && ts[0].unackedAtT == Some(false)
  {
    var s1 := Step(c, START, Send(0));
    var s2 := Step(c, s1, Mark(5));
    var s3 := Step(c, s2, Ack(key, 12));
    var s4 := Step(c, s3, Mark(14));
    var rest := [Mark(5), Ack(key, 12), Mark(14)];
    assert s3.trials[0].ack == Some(12);
    assert rest[1..] == [Ack(key, 12), Mark(14)] && rest[1..][1..] == [Mark(14)] && [Mark(14)][1..] == [];
    assert Exec(c, s4, []) == s4;
    assert Exec(c, s3, [Mark(14)]) == s4;
    assert Exec(c, s2, rest[1..]) == s4;
    assert Exec(c, s1, rest) == s4;
    assert [Send(0), Mark(5), Ack(key, 12), Mark(14)][1..] == rest;
  }
}

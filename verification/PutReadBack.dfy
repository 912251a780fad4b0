/**
 Whose turn the read-back of the put role is: a round-robin over a list that, while the plan is
 being sent, grows by one before every look.

 What a whole pass does is first stated for one pass, and then carried through any number of them.
 */
module PutReadBack {
  import opened Base
  import opened PutRole
  import Reader

  /** The trial the next read-back asks about, if any has no confirmation. */
  function Turn(s: State): Option<nat> {
    var n := Looks(s.trials, s.next, 0);
    if n == |s.trials| then None else Some((s.next + n) % |s.trials|)
  }

  predicate IsOpen(ts: seq<Trial>, i: nat) { i < |ts| && ts[i].confirm.None? }

  /* ---------- while the list does not grow ---------- */

  lemma {:induction false} LooksStops(ts: seq<Trial>, next: nat, looked: nat, step: nat)
    requires looked <= step < |ts| && ts[(next + step) % |ts|].confirm.None?
    ensures Looks(ts, next, looked) <= step
    decreases |ts| - looked
  {
    if !ts[(next + looked) % |ts|].confirm.None? {
      LooksStops(ts, next, looked + 1, step);
    }
  }

  /** A read-back asks about this trial, or brings it strictly closer to its turn. */
  lemma {:induction false} ReadBackComesCloser(c: Config, s: State, a: Action, i: nat)
    requires a.ReadBack? && IsOpen(s.trials, i)
    ensures Turn(s) != Some(i) ==>
              && IsOpen(Step(c, s, a).trials, i) && |Step(c, s, a).trials| == |s.trials|
              && Reader.Gap(i, Step(c, s, a).next, |s.trials|) < Reader.Gap(i, s.next, |s.trials|)
  {
    var len, n := |s.trials|, Looks(s.trials, s.next, 0);
    var gap := Reader.Gap(i, s.next, len);
    Reader.StepIsGap(i, s.next, len, gap);
    LooksStops(s.trials, s.next, 0, gap);
    Reader.StepIsGap(i, s.next, len, n);
    if n != gap {
      Reader.Wrap(s.next, len, n + 1);
    }
  }

  predicate AskedIn(c: Config, s: State, actions: seq<Action>, i: nat)
    decreases |actions|
  {
    actions != []
    && ((actions[0].ReadBack? && Turn(s) == Some(i)) || AskedIn(c, Step(c, s, actions[0]), actions[1..], i))
  }

  function ReadBacks(actions: seq<Action>): nat {
    if actions == [] then 0 else (if actions[0].ReadBack? then 1 else 0) + ReadBacks(actions[1..])
  }

  /** No action of these sends: there is nothing left to send, or nothing tries. */
  predicate SendsNothing(c: Config, s: State, actions: seq<Action>) {
    s.toSend >= |c.plan| || forall a :: a in actions ==> !a.Send?
  }

  lemma {:induction false} UnaskedIsBounded(c: Config, s: State, actions: seq<Action>, i: nat)
    requires IsOpen(s.trials, i) && SendsNothing(c, s, actions) && !AskedIn(c, s, actions, i)
    ensures ReadBacks(actions) <= Reader.Gap(i, s.next, |s.trials|)
    decreases |actions|
  {
    if actions != [] {
      var a, t := actions[0], Step(c, s, actions[0]);
      if a.ReadBack? {
        ReadBackComesCloser(c, s, a, i);
      }
      UnaskedIsBounded(c, t, actions[1..], i);
    }
  }

  /**
   Once nothing is sent any more, every trial without a confirmation is asked about within as many
   read-backs as there are trials.
   */
  lemma {:induction false} ReadBackComesRound(c: Config, s: State, actions: seq<Action>, i: nat)
    requires IsOpen(s.trials, i) && SendsNothing(c, s, actions)
    requires ReadBacks(actions) >= |s.trials|
    ensures AskedIn(c, s, actions, i)
  {
    if !AskedIn(c, s, actions, i) {
      UnaskedIsBounded(c, s, actions, i);
    }
  }

  /* ---------- whole passes of the loop ---------- */

  /** A pass: a send if anything is left, acknowledgements and marks, one read-back. */
  datatype Pass = Pass(sendNow: int, between: seq<Action>, served: bool, readNow: int)

  predicate Ordinary(p: Pass) { forall a :: a in p.between ==> a.Ack? || a.Mark? }

  function BeforeRead(c: Config, s: State, p: Pass): State {
    Exec(c, Step(c, s, Send(p.sendNow)), p.between)
  }

  function AfterPass(c: Config, s: State, p: Pass): State {
    Step(c, BeforeRead(c, s, p), ReadBack(p.served, p.readNow))
  }

  /** What a pass makes of a state, and which trial it asks about. */
  type Turning = (State, Pass) -> (State, Option<nat>)

  function LoopPass(c: Config): Turning { (s, p) => (AfterPass(c, s, p), Turn(BeforeRead(c, s, p))) }

  function Passes(f: Turning, s: State, ps: seq<Pass>): State
    decreases |ps|
  {
    if ps == [] then s else Passes(f, f(s, ps[0]).0, ps[1..])
  }

  /** Some pass of these asks about this trial. */
  predicate AskedBy(f: Turning, s: State, ps: seq<Pass>, i: nat)
    decreases |ps|
  {
    ps != [] && (f(s, ps[0]).1 == Some(i) || AskedBy(f, f(s, ps[0]).0, ps[1..], i))
  }

  /** The same trials confirmed, the same turn to come, as much left to send. */
  predicate SamePlaces(s: State, t: State) {
    && |t.trials| == |s.trials| && t.next == s.next && t.toSend == s.toSend
    && forall i :: 0 <= i < |s.trials| ==> t.trials[i].confirm == s.trials[i].confirm
  }

  lemma {:induction false} BetweenKeeps(c: Config, s: State, between: seq<Action>)
    requires forall a :: a in between ==> a.Ack? || a.Mark?
    ensures SamePlaces(s, Exec(c, s, between))
    decreases |between|
  {
    if between != [] {
      var a := between[0];
      assert a in between;
      assert SamePlaces(s, Step(c, s, a));
      BetweenKeeps(c, Step(c, s, a), between[1..]);
    }
  }

  /* ---------- while every pass sends ---------- */

  /** The turn stands just behind the last trial, and everything sent is a trial. A run starts like this. */
  predicate Balanced(s: State) { s.next == |s.trials| == s.toSend }

  /** A pass that sends asks about what it has just sent, and about nothing else. */
  ghost predicate AsksItsOwn(s: State, p: Pass, after: (State, Option<nat>)) {
    var (t, asked) := after;
    && asked == Some(|s.trials|)
    && Balanced(t) && t.toSend == s.toSend + 1 && |t.trials| == |s.trials| + 1
    && (forall i :: 0 <= i < |s.trials| ==> t.trials[i].confirm == s.trials[i].confirm)
    && (t.trials[|s.trials|].confirm.Some? <==> p.served)
  }

  lemma {:induction false} SendingPass(c: Config, s: State, p: Pass)
    requires Balanced(s) && s.toSend < |c.plan| && Ordinary(p)
    ensures AsksItsOwn(s, p, LoopPass(c)(s, p))
  {
    var sent, m := Step(c, s, Send(p.sendNow)), BeforeRead(c, s, p);
    BetweenKeeps(c, sent, p.between);
    var len := |s.trials|;
    assert len % (len + 1) == len by { Reader.StepIsGap(len, len, len + 1, 0); }
    assert m.trials[len].confirm.None?;
    assert Looks(m.trials, m.next, 0) == 0;
  }

  ghost predicate SendsFirst(f: Turning, planned: nat) {
    forall s, p :: Balanced(s) && s.toSend < planned && Ordinary(p) ==> AsksItsOwn(s, p, f(s, p))
  }

  lemma {:induction false} LoopSendsFirst(c: Config)
    ensures SendsFirst(LoopPass(c), |c.plan|)
  {
    forall s, p | Balanced(s) && s.toSend < |c.plan| && Ordinary(p) ensures AsksItsOwn(s, p, LoopPass(c)(s, p)) {
      SendingPass(c, s, p);
    }
  }

  /** Every pass has something to send, and does nothing out of the ordinary. */
  predicate AllSend(s: State, ps: seq<Pass>, planned: nat) {
    Balanced(s) && s.toSend + |ps| <= planned && forall p :: p in ps ==> Ordinary(p)
  }

  lemma {:induction false} ConfirmedStays(f: Turning, planned: nat, s: State, ps: seq<Pass>, i: nat)
    requires SendsFirst(f, planned) && AllSend(s, ps, planned) && i < |s.trials|
    ensures i < |Passes(f, s, ps).trials| && Passes(f, s, ps).trials[i].confirm == s.trials[i].confirm
    decreases |ps|
  {
    if ps != [] {
      assert AsksItsOwn(s, ps[0], f(s, ps[0]));
      ConfirmedStays(f, planned, f(s, ps[0]).0, ps[1..], i);
    }
  }

  lemma {:induction false} AskedWhileSending(f: Turning, planned: nat, s: State, ps: seq<Pass>, i: nat)
    requires SendsFirst(f, planned) && AllSend(s, ps, planned)
    ensures AskedBy(f, s, ps, i) <==> |s.trials| <= i < |s.trials| + |ps|
    decreases |ps|
  {
    if ps != [] {
      assert AsksItsOwn(s, ps[0], f(s, ps[0]));
      AskedWhileSending(f, planned, f(s, ps[0]).0, ps[1..], i);
    }
  }

  lemma {:induction false} PassAsksItsOwn(f: Turning, planned: nat, s: State, ps: seq<Pass>, k: nat)
    requires SendsFirst(f, planned) && AllSend(s, ps, planned) && k < |ps|
    ensures var t, i := Passes(f, s, ps), |s.trials| + k;
            && f(Passes(f, s, ps[..k]), ps[k]).1 == Some(i)
            && i < |t.trials| && (t.trials[i].confirm.Some? <==> ps[k].served)
    decreases |ps|
  {
    var p, rest := ps[0], ps[1..];
    var u := f(s, p).0;
    assert AsksItsOwn(s, p, f(s, p));
    if k > 0 {
      assert ps[..k][0] == p && ps[..k][1..] == rest[..k - 1];
      PassAsksItsOwn(f, planned, u, rest, k - 1);
    } else {
      ConfirmedStays(f, planned, u, rest, |s.trials|);
    }
  }

  /**
   While every pass sends, as all do until the plan is out, pass `k` asks about the `k`-th trial sent
   and about nothing else: each trial is asked about once, just after its own send, and one that was
   not served then has no confirmation when the last of these passes is over.
   */
  lemma {:induction false} EachPassAsksItsOwn(c: Config, s: State, ps: seq<Pass>, k: nat)
    requires AllSend(s, ps, |c.plan|) && k < |ps|
    ensures var f, i := LoopPass(c), |s.trials| + k;
            var t := Passes(f, s, ps);
            && f(Passes(f, s, ps[..k]), ps[k]).1 == Some(i)
            && i < |t.trials| && (t.trials[i].confirm.Some? <==> ps[k].served)
    ensures forall i: nat :: AskedBy(LoopPass(c), s, ps, i) <==> |s.trials| <= i < |s.trials| + |ps|
  {
    LoopSendsFirst(c);
    PassAsksItsOwn(LoopPass(c), |c.plan|, s, ps, k);
    forall i: nat ensures AskedBy(LoopPass(c), s, ps, i) <==> |s.trials| <= i < |s.trials| + |ps| {
      AskedWhileSending(LoopPass(c), |c.plan|, s, ps, i);
    }
  }

  /* ---------- when a trial's turn comes ---------- */

  /** The trials from `lo` up to `hi` that have no confirmation. */
  function Unconfirmed(ts: seq<Trial>, lo: nat, hi: nat): nat
    requires hi <= |ts|
    decreases hi - lo
  {
    if lo >= hi then 0 else (if ts[lo].confirm.None? then 1 else 0) + Unconfirmed(ts, lo + 1, hi)
  }

  lemma {:induction false} SameUnconfirmed(ts: seq<Trial>, us: seq<Trial>, lo: nat, hi: nat)
    requires hi <= |ts| && hi <= |us|
    requires forall i :: lo <= i < hi ==> us[i].confirm == ts[i].confirm
    ensures Unconfirmed(us, lo, hi) == Unconfirmed(ts, lo, hi)
    decreases hi - lo
  {
    if lo < hi {
      SameUnconfirmed(ts, us, lo + 1, hi);
    }
  }

  lemma {:induction false} UnconfirmedSplit(ts: seq<Trial>, lo: nat, mid: nat, hi: nat)
    requires lo <= mid <= hi <= |ts|
    ensures Unconfirmed(ts, lo, hi) == Unconfirmed(ts, lo, mid) + Unconfirmed(ts, mid, hi)
    decreases mid - lo
  {
    if lo < mid {
      UnconfirmedSplit(ts, lo + 1, mid, hi);
    }
  }

  lemma {:induction false} SkipsConfirmed(ts: seq<Trial>, next: nat, at: nat, looked: nat, i: nat)
    requires at + looked <= i < |ts| && next % |ts| == at && IsOpen(ts, i)
    ensures var n := Looks(ts, next, looked);
            && at + n <= i && IsOpen(ts, at + n) && (next + n) % |ts| == at + n
            && Unconfirmed(ts, at + looked, at + n) == 0
    decreases i - looked
  {
    Reader.Wrap(next, |ts|, looked);
    if ts[at + looked].confirm.Some? {
      SkipsConfirmed(ts, next, at, looked + 1, i);
    }
  }

  lemma {:induction false} ReadBackGoesOn(c: Config, m: State, a: Action, at: nat, i: nat)
    requires a.ReadBack? && at <= i && IsOpen(m.trials, i) && m.next % |m.trials| == at
    ensures Turn(m).Some?
    ensures var q, t := Turn(m).value, Step(c, m, a);
            && at <= q <= i && t.toSend == m.toSend && |t.trials| == |m.trials|
            && (q == i <==> Unconfirmed(m.trials, at, i) == 0)
            && (q < i ==> t.next % |t.trials| == q + 1 && IsOpen(t.trials, i)
                          && Unconfirmed(t.trials, q + 1, i) == Unconfirmed(m.trials, at, i) - 1)
  {
    var ts := m.trials;
    SkipsConfirmed(ts, m.next, at, 0, i);
    var n := Looks(ts, m.next, 0);
    UnconfirmedSplit(ts, at, at + n, i);
    if at + n < i {
      Reader.Wrap(m.next, |ts|, n + 1);
      SameUnconfirmed(ts, Step(c, m, a).trials, at + n + 1, i);
    }
  }

  /** With nothing left to send, the turn goes from one unconfirmed trial to the next. */
  ghost predicate GoesOn(s: State, i: nat, after: (State, Option<nat>))
    requires IsOpen(s.trials, i)
  {
    var (t, asked) := after;
    var at := s.next % |s.trials|;
    && asked.Some? && at <= asked.value <= i
    && t.toSend == s.toSend && |t.trials| == |s.trials|
    && (asked.value == i <==> Unconfirmed(s.trials, at, i) == 0)
    && (asked.value < i ==> t.next % |t.trials| == asked.value + 1 && IsOpen(t.trials, i)
                            && Unconfirmed(t.trials, asked.value + 1, i) == Unconfirmed(s.trials, at, i) - 1)
  }

  lemma {:induction false} LaterPass(c: Config, s: State, p: Pass, i: nat)
    requires s.toSend >= |c.plan| && Ordinary(p) && IsOpen(s.trials, i) && s.next % |s.trials| <= i
    ensures GoesOn(s, i, LoopPass(c)(s, p))
  {
    var m, at := BeforeRead(c, s, p), s.next % |s.trials|;
    BetweenKeeps(c, Step(c, s, Send(p.sendNow)), p.between);
    assert SamePlaces(s, m);
    SameUnconfirmed(s.trials, m.trials, at, i);
    ReadBackGoesOn(c, m, ReadBack(p.served, p.readNow), at, i);
  }

  ghost predicate Sweeps(f: Turning, planned: nat) {
    forall s: State, p: Pass, i: nat ::
      s.toSend >= planned && Ordinary(p) && IsOpen(s.trials, i) && s.next % |s.trials| <= i
      ==> GoesOn(s, i, f(s, p))
  }

  lemma {:induction false} LoopSweeps(c: Config)
    ensures Sweeps(LoopPass(c), |c.plan|)
  {
    forall s: State, p: Pass, i: nat
      | s.toSend >= |c.plan| && Ordinary(p) && IsOpen(s.trials, i) && s.next % |s.trials| <= i
      ensures GoesOn(s, i, LoopPass(c)(s, p))
    {
      LaterPass(c, s, p, i);
    }
  }

  lemma {:induction false} SweepIff(f: Turning, planned: nat, s: State, ps: seq<Pass>, i: nat)
    requires Sweeps(f, planned) && s.toSend >= planned && forall p :: p in ps ==> Ordinary(p)
    requires IsOpen(s.trials, i) && s.next % |s.trials| <= i
    ensures AskedBy(f, s, ps, i) <==> |ps| > Unconfirmed(s.trials, s.next % |s.trials|, i)
    decreases |ps|
  {
    if ps != [] {
      var (t, asked) := f(s, ps[0]);
      assert GoesOn(s, i, f(s, ps[0]));
      if asked.value < i {
        SweepIff(f, planned, t, ps[1..], i);
      }
    }
  }

  lemma {:induction false} TurnIff(f: Turning, planned: nat, s: State, ps: seq<Pass>, i: nat)
    requires SendsFirst(f, planned) && Sweeps(f, planned)
    requires Balanced(s) && s.toSend <= planned && IsOpen(s.trials, i) && forall p :: p in ps ==> Ordinary(p)
    ensures AskedBy(f, s, ps, i) <==> |ps| > planned - s.toSend + Unconfirmed(s.trials, 0, i)
    decreases |ps|
  {
    if s.toSend == planned {
      assert s.next % |s.trials| == 0;
      SweepIff(f, planned, s, ps, i);
    } else if ps != [] {
      var t := f(s, ps[0]).0;
      assert AsksItsOwn(s, ps[0], f(s, ps[0]));
      SameUnconfirmed(s.trials, t.trials, 0, i);
      TurnIff(f, planned, t, ps[1..], i);
    }
  }

  /**
   When a trial's next turn comes, for every run of passes from such a point: after the rest of the
   plan has been sent, and after every unconfirmed trial before it.
   */
  lemma {:induction false} TurnComesIff(c: Config, s: State, ps: seq<Pass>, i: nat)
    requires Balanced(s) && s.toSend <= |c.plan| && IsOpen(s.trials, i) && forall p :: p in ps ==> Ordinary(p)
    ensures AskedBy(LoopPass(c), s, ps, i) <==> |ps| > |c.plan| - s.toSend + Unconfirmed(s.trials, 0, i)
  {
    LoopSendsFirst(c);
    LoopSweeps(c);
    TurnIff(LoopPass(c), |c.plan|, s, ps, i);
  }

  lemma {:induction false} LastUnconfirmed(ts: seq<Trial>, hi: nat) returns (i: nat)
    requires hi <= |ts| && Unconfirmed(ts, 0, hi) > 0
    ensures i < hi && IsOpen(ts, i) && Unconfirmed(ts, 0, i) == Unconfirmed(ts, 0, hi) - 1
    decreases hi
  {
    UnconfirmedSplit(ts, 0, hi - 1, hi);
    if ts[hi - 1].confirm.None? {
      i := hi - 1;
    } else {
      i := LastUnconfirmed(ts, hi - 1);
    }
  }

  /**
   So a turn within as many passes as there are trials is promised exactly when no more is left to
   send than is already confirmed; with nothing confirmed, exactly when nothing is left to send.
   */
  lemma {:induction false} TurnWithinTheListIff(c: Config, s: State, ps: seq<Pass>)
    requires Balanced(s) && s.toSend <= |c.plan| && forall p :: p in ps ==> Ordinary(p)
    requires |ps| == |s.trials| && Unconfirmed(s.trials, 0, |s.trials|) > 0
    ensures var open := Unconfirmed(s.trials, 0, |s.trials|);
            && ((forall i: nat :: IsOpen(s.trials, i) ==> AskedBy(LoopPass(c), s, ps, i))
                <==> |c.plan| - s.toSend <= |s.trials| - open)
            && (open == |s.trials| ==>
                  ((forall i: nat :: IsOpen(s.trials, i) ==> AskedBy(LoopPass(c), s, ps, i)) <==> s.toSend == |c.plan|))
  {
    var len := |s.trials|;
    forall i: nat | IsOpen(s.trials, i)
      ensures Unconfirmed(s.trials, 0, i) < Unconfirmed(s.trials, 0, len)
      ensures AskedBy(LoopPass(c), s, ps, i) <==> len > |c.plan| - s.toSend + Unconfirmed(s.trials, 0, i)
    {
      TurnComesIff(c, s, ps, i);
      UnconfirmedSplit(s.trials, 0, i, len);
    }
    var last := LastUnconfirmed(s.trials, len);
    assert IsOpen(s.trials, last);
  }
}

/**
 One hedged trial of `src/hedge.rs`: put a block, hedge it at T if nothing has acknowledged it,
 and watch for the acknowledgement and for the block to become readable.
 */
module HedgeTrial {
  import opened Base
  import Stats

  // Times are nanoseconds since the put, read from a clock that never goes backwards.

  datatype Trial = Trial(ack: Option<nat>, readable: Option<nat>, hedged: bool)

  /** What one short look at the writer's connection brings. */
  datatype Look = Acked(at: nat) | Other | Nothing | Broken

  /**
   What the world does during one turn of the loop: the clock when the loop's condition is
   evaluated and again on entry, whether a hedge or a read-back could be sent, when the block was
   served (if it was), the clock when the read-back was over, and what the writer's connection brought.
   */
  datatype Turn = Turn(
    checked: nat, now: nat, hedgeSent: bool, getSent: bool, served: Option<nat>, probed: nat, look: Look)

  const PROBE: nat := 250_000_000

  /** One reading of the clock is no earlier than the one before it, within a turn and between turns. */
  ghost predicate Forward(turns: seq<Turn>) {
    && (forall i :: 0 <= i < |turns| ==> turns[i].checked <= turns[i].now <= turns[i].probed)
    && (forall i :: 0 <= i < |turns| && turns[i].served.Some? ==>
          turns[i].now <= turns[i].served.value <= turns[i].probed)
    && (forall i :: 0 <= i < |turns| && turns[i].look.Acked? ==> turns[i].probed <= turns[i].look.at)
    && (forall i, j :: 0 <= i < j < |turns| ==> turns[i].probed <= turns[j].checked)
    && (forall i, j :: 0 <= i < j < |turns| && turns[i].look.Acked? ==> turns[i].look.at <= turns[j].checked)
  }

  /** The first acknowledgement among the first `n` turns. */
  function FirstAck(turns: seq<Turn>, n: nat): Option<nat>
    requires n <= |turns|
  {
    if n == 0 then None
    else if FirstAck(turns, n - 1).Some? then FirstAck(turns, n - 1)
    else if turns[n - 1].look.Acked? then Some(turns[n - 1].look.at) else None
  }

  /** No read-back is sent before this, by the `n`-th turn of a trial that has not read its block. */
  function NextProbe(turns: seq<Turn>, n: nat): nat
    requires n <= |turns|
    decreases n, 0
  {
    if n == 0 then 0
    else if Asks(turns, n - 1) then turns[n - 1].probed + PROBE
    else NextProbe(turns, n - 1)
  }

  predicate Asks(turns: seq<Turn>, i: nat)
    requires i < |turns|
    decreases i, 1
  {
    turns[i].now >= NextProbe(turns, i)
  }

  /** When a read-back first brought the block. */
  function FirstRead(turns: seq<Turn>, n: nat): Option<nat>
    requires n <= |turns|
  {
    if n == 0 then None
    else if FirstRead(turns, n - 1).Some? then FirstRead(turns, n - 1)
    else if Asks(turns, n - 1) then turns[n - 1].served else None
  }

  /** Read-backs are at least one probe apart: that is the resolution of `readable`. */
  lemma {:induction false} ReadBacksAreSpaced(turns: seq<Turn>, i: nat, j: nat)
    requires i < j < |turns| && Forward(turns) && Asks(turns, i) && Asks(turns, j)
    ensures turns[j].now >= turns[i].probed + 250_000_000
  {
    NextProbeGrows(turns, i, j);
  }

  lemma {:induction false} NextProbeIs(turns: seq<Turn>, n: nat)
    requires n <= |turns|
    ensures NextProbe(turns, n) == 0
            || exists j :: 0 <= j < n && Asks(turns, j) && NextProbe(turns, n) == turns[j].probed + 250_000_000
  {
    if n > 0 {
      NextProbeIs(turns, n - 1);
    }
  }

  /** A turn asks for the block exactly when every turn before it that asked was over a probe ago. */
  lemma AsksIff(turns: seq<Turn>, i: nat)
    requires i < |turns| && Forward(turns)
    ensures Asks(turns, i)
            <==> forall j :: 0 <= j < i && Asks(turns, j) ==> turns[i].now >= turns[j].probed + 250_000_000
  {
    NextProbeIs(turns, i);
    forall j | 0 <= j < i && Asks(turns, j) ensures NextProbe(turns, i) >= turns[j].probed + PROBE {
      NextProbeGrows(turns, j, i);
    }
  }

  /** A trial's two times: of the first turn that asked and was served, and of the first acknowledgement. */
  lemma {:induction false} TimesAreTheFirst(turns: seq<Turn>, n: nat, at: nat)
    requires n <= |turns|
    ensures FirstRead(turns, n) == Some(at)
            <==> exists i :: 0 <= i < n && Asks(turns, i) && turns[i].served == Some(at)
                             && forall j :: 0 <= j < i && Asks(turns, j) ==> turns[j].served.None?
    ensures FirstAck(turns, n) == Some(at)
            <==> exists i :: 0 <= i < n && turns[i].look == Acked(at)
                             && forall j :: 0 <= j < i ==> !turns[j].look.Acked?
  {
    if n > 0 {
      TimesAreTheFirst(turns, n - 1, at);
      NoneBefore(turns, n - 1);
    }
  }

  lemma {:induction false} NoneBefore(turns: seq<Turn>, n: nat)
    requires n <= |turns|
    ensures FirstRead(turns, n).None? <==> forall j :: 0 <= j < n && Asks(turns, j) ==> turns[j].served.None?
    ensures FirstAck(turns, n).None? <==> forall j :: 0 <= j < n ==> !turns[j].look.Acked?
  {
    if n > 0 {
      NoneBefore(turns, n - 1);
    }
  }

  lemma {:induction false} NextProbeGrows(turns: seq<Turn>, i: nat, j: nat)
    requires i < j <= |turns| && Forward(turns) && Asks(turns, i)
    ensures NextProbe(turns, j) >= turns[i].probed + PROBE
    decreases j
  {
    if i < j - 1 {
      NextProbeGrows(turns, i, j - 1);
    }
  }

  /** Some turn among the first `n` began at T or later. */
  predicate Reached(turns: seq<Turn>, n: nat, t: Option<nat>)
    requires n <= |turns|
  {
    t.Some? && n > 0 && (Reached(turns, n - 1, t) || turns[n - 1].now >= t.value)
  }

  /** Some turn among the first `n` began at T or later with nothing acknowledged. */
  predicate Waited(turns: seq<Turn>, n: nat, t: Option<nat>)
    requires n <= |turns|
  {
    t.Some? && n > 0
    && (Waited(turns, n - 1, t) || (turns[n - 1].now >= t.value && FirstAck(turns, n - 1).None?))
  }

  /** If T has come and nothing is acknowledged, nothing was when it came. */
  lemma {:induction false} ReachedUnacked(turns: seq<Turn>, n: nat, t: Option<nat>)
    requires n <= |turns| && Reached(turns, n, t) && FirstAck(turns, n).None?
    ensures Waited(turns, n, t)
  {
    if Reached(turns, n - 1, t) {
      ReachedUnacked(turns, n - 1, t);
    }
  }

  /** The trial a run of `n` turns leaves behind. */
  ghost predicate Outcome(turns: seq<Turn>, n: nat, t: Option<nat>, out: Trial) {
    && n <= |turns|
    && out.ack == FirstAck(turns, n)
    && (out.hedged <==> Waited(turns, n, t))
    && out.readable == FirstRead(turns, n)
  }

  /** What has not been acknowledged by one turn had not been by any before it. */
  lemma {:induction false} UnackedBefore(turns: seq<Turn>, i: nat, n: nat)
    requires i <= n <= |turns|
    ensures FirstAck(turns, i).Some? ==> FirstAck(turns, n) == FirstAck(turns, i)
    decreases n
  {
    if i < n {
      UnackedBefore(turns, i, n - 1);
    }
  }

  /** Turn `k` is taken: the deadline has not come, and one of the two clocks still runs. */
  predicate Taken(turns: seq<Turn>, k: nat, deadline: nat) {
    && k < |turns| && turns[k].checked < deadline
    && (FirstAck(turns, k).None? || FirstRead(turns, k).None?)
  }

  /**
   What a turn cannot survive: a due hedge or read-back that cannot be sent, a connection lost while
   unacknowledged.
   */
  predicate Fails(turns: seq<Turn>, k: nat, t: Option<nat>)
    requires k < |turns|
  {
    || (t.Some? && turns[k].now >= t.value && !Reached(turns, k, t) && FirstAck(turns, k).None? && !turns[k].hedgeSent)
    || (FirstRead(turns, k).None? && Asks(turns, k) && !turns[k].getSent)
    || (FirstAck(turns, k).None? && turns[k].look.Broken?)
  }

  /**
   The loop of `trial`, on what the world would do: `n` is the first turn that is not taken or that
   fails, and there is no trial exactly when it fails.
   */
  method RunTrial(t: Option<nat>, deadline: nat, turns: seq<Turn>) returns (r: Option<Trial>, n: nat)
    requires Forward(turns)
    ensures n <= |turns| && forall i :: 0 <= i < n ==> Taken(turns, i, deadline) && !Fails(turns, i, t)
    ensures r.None? <==> Taken(turns, n, deadline) && Fails(turns, n, t)
    ensures r.Some? ==> Outcome(turns, n, t, r.value) && !Taken(turns, n, deadline)
  {
    var out := Trial(None, None, false);
    var marked, nextProbe := false, 0;
    n := 0;
    while n < |turns| && turns[n].checked < deadline && (out.ack.None? || out.readable.None?)
      invariant Outcome(turns, n, t, out)
      invariant out.readable.None? ==> nextProbe == NextProbe(turns, n)
      invariant marked <==> Reached(turns, n, t)
      invariant forall i :: 0 <= i < n ==> Taken(turns, i, deadline) && !Fails(turns, i, t)
    {
      var w := turns[n];
      if t.Some? && !marked && w.now >= t.value {
        marked := true;
        if out.ack.None? {
          if !w.hedgeSent { return None, n; }
          out := out.(hedged := true);
        }
      } else if marked && out.ack.None? {
        ReachedUnacked(turns, n, t);
      }
      if out.readable.None? && w.now >= nextProbe {
        if !w.getSent { return None, n; }
        if w.served.Some? {
          out := out.(readable := w.served);
        }
        nextProbe := w.probed + PROBE;
      }
      if out.ack.None? {
        match w.look {
          case Acked(at) => out := out.(ack := Some(at));
          case Broken => return None, n;
          case Other => // another key's answer, or another kind
          case Nothing =>
        }
      }
      n := n + 1;
    }
    r := Some(out);
  }

  lemma {:induction false} ReachedIff(turns: seq<Turn>, n: nat, t: Option<nat>)
    requires n <= |turns|
    ensures Reached(turns, n, t) <==> t.Some? && exists j :: 0 <= j < n && turns[j].now >= t.value
  {
    if n > 0 {
      ReachedIff(turns, n - 1, t);
    }
  }

  /**
   When a turn ends the trial with an error, from the turns alone: it is the first at T or later, nothing
   was acknowledged before and its hedge cannot be sent; it asks for a block not served before and the
   request cannot be sent; or the connection is lost and nothing was acknowledged before.
   */
  lemma FailsIff(turns: seq<Turn>, k: nat, t: Option<nat>)
    requires k < |turns|
    ensures Fails(turns, k, t) <==>
              || (t.Some? && turns[k].now >= t.value && !turns[k].hedgeSent
                  && forall j :: 0 <= j < k ==> turns[j].now < t.value && !turns[j].look.Acked?)
              || (Asks(turns, k) && !turns[k].getSent
                  && forall j :: 0 <= j < k && Asks(turns, j) ==> turns[j].served.None?)
              || (turns[k].look.Broken? && forall j :: 0 <= j < k ==> !turns[j].look.Acked?)
  {
    NoneBefore(turns, k);
    ReachedIff(turns, k, t);
  }

  /** When a turn is taken at all. */
  lemma TakenIff(turns: seq<Turn>, k: nat, deadline: nat)
    ensures Taken(turns, k, deadline) <==>
              && k < |turns| && turns[k].checked < deadline
              && ((forall j :: 0 <= j < k ==> !turns[j].look.Acked?)
                  || (forall j :: 0 <= j < k && Asks(turns, j) ==> turns[j].served.None?))
  {
    if k < |turns| {
      NoneBefore(turns, k);
    }
  }

  /* ---------- `hedged`, and what the control is compared by ---------- */

  predicate UnackedAt(x: Trial, t: nat) {
    match x.ack case Some(a) => a > t case None => true
  }

  /** The turn that brought the first acknowledgement, or `n`. */
  function AckTurn(turns: seq<Turn>, n: nat): (k: nat)
    requires n <= |turns|
    ensures k <= n && FirstAck(turns, k).None?
    ensures k < n ==> turns[k].look.Acked? && FirstAck(turns, n) == Some(turns[k].look.at)
    ensures k == n ==> FirstAck(turns, n).None?
  {
    if n == 0 then 0
    else if FirstAck(turns, n - 1).Some? then AckTurn(turns, n - 1)
    else if turns[n - 1].look.Acked? then n - 1 else n
  }

  /** The last turn that began with nothing acknowledged. */
  function LastWait(turns: seq<Turn>, n: nat): (k: nat)
    requires 0 < n <= |turns|
    ensures k < n
  {
    if AckTurn(turns, n) < n then AckTurn(turns, n) else n - 1
  }

  lemma {:induction false} WaitedIff(turns: seq<Turn>, n: nat, t: nat)
    requires n <= |turns|
    ensures Waited(turns, n, Some(t)) <==> exists i :: 0 <= i < n && turns[i].now >= t && FirstAck(turns, i).None?
  {
    if n > 0 {
      WaitedIff(turns, n - 1, t);
    }
  }

  /** A hedge fired exactly if the last turn that began unacknowledged began at T or later. */
  lemma HedgedIff(turns: seq<Turn>, n: nat, t: nat, out: Trial)
    requires Forward(turns) && Outcome(turns, n, Some(t), out)
    ensures out.hedged <==> n > 0 && turns[LastWait(turns, n)].now >= t
  {
    WaitedIff(turns, n, t);
    if n > 0 {
      var k := LastWait(turns, n);
      UnackedBefore(turns, k, AckTurn(turns, n));
      assert FirstAck(turns, k).None?;
      if out.hedged {
        var i :| 0 <= i < n && turns[i].now >= t && FirstAck(turns, i).None?;
        if i > k {
          UnackedBefore(turns, k + 1, i);
        }
        assert i <= k;
      }
    }
  }

  /**
   For every run of a trial with a T: a hedged trial was acknowledged at T or later, or never; it is
   in the population the control is conditioned on, unless its acknowledgement came at T exactly.
   */
  lemma HedgedIsUnackedIff(turns: seq<Turn>, n: nat, t: nat, out: Trial)
    requires Forward(turns) && Outcome(turns, n, Some(t), out) && out.hedged
    ensures out.ack.Some? ==> out.ack.value >= t
    ensures UnackedAt(out, t) <==> out.ack != Some(t)
  {
    HedgedIff(turns, n, t, out);
  }

  /**
   The other way round: a trial is in that population and was not hedged exactly when its last
   unacknowledged turn began before T, so an acknowledgement it did get fell within one turn.
   */
  lemma UnackedButNotHedgedIff(turns: seq<Turn>, n: nat, t: nat, out: Trial)
    requires Forward(turns) && Outcome(turns, n, Some(t), out)
    ensures UnackedAt(out, t) && !out.hedged
            <==> (out.ack.None? || out.ack.value > t) && (n == 0 || turns[LastWait(turns, n)].now < t)
    ensures UnackedAt(out, t) && !out.hedged && out.ack.Some?
            ==> exists k :: 0 <= k < n && turns[k].look == Acked(out.ack.value) && turns[k].now < t
  {
    HedgedIff(turns, n, t, out);
    if UnackedAt(out, t) && !out.hedged && out.ack.Some? {
      var k := LastWait(turns, n);
      assert turns[k].look == Acked(out.ack.value) && turns[k].now < t;
    }
  }

  /** Both gaps are real, for any T: hedged and acknowledged at T, and unacknowledged at T but not hedged. */
  lemma TheTwoDisagree(t: nat)
    requires t > 0
    ensures exists turns, out :: Forward(turns) && Outcome(turns, 1, Some(t), out) && out.hedged && !UnackedAt(out, t)
    ensures exists turns, out :: Forward(turns) && Outcome(turns, 1, Some(t), out) && !out.hedged && UnackedAt(out, t)
  {
    var atT, a := Turn(t, t, true, true, None, t, Acked(t)), Trial(Some(t), None, true);
    OneTurn(atT, t, a);
    assert Forward([atT]) && Outcome([atT], 1, Some(t), a) && a.hedged && !UnackedAt(a, t);
    var across, b := Turn(t - 1, t - 1, true, true, None, t, Acked(t + 1)), Trial(Some(t + 1), None, false);
    OneTurn(across, t, b);
    assert Forward([across]) && Outcome([across], 1, Some(t), b) && !b.hedged && UnackedAt(b, t);
  }

  lemma OneTurn(w: Turn, t: nat, out: Trial)
    requires w.look.Acked? && w.served.None?
    requires out == Trial(Some(w.look.at), None, w.now >= t)
    ensures Outcome([w], 1, Some(t), out)
  {
    var ws := [w];
    assert FirstAck(ws, 0).None? && FirstRead(ws, 0).None? && NextProbe(ws, 0) == 0;
    assert !Waited(ws, 0, Some(t));
    assert ws[0] == w;
  }

  /* ---------- what the control did unaided ---------- */

  function Ms(ns: nat): real { ns as real / 1000000.0 }

  datatype Unaided = Unaided(pool: nat, acked: nat, p50: Option<real>, p90: Option<real>)

  function Pool(control: seq<Trial>, t: nat): seq<Trial> {
    if control == [] then []
    else (if UnackedAt(control[0], t) then [control[0]] else []) + Pool(control[1..], t)
  }

  function Acks(pool: seq<Trial>): seq<real> {
    if pool == [] then []
    else (match pool[0].ack case Some(a) => [Ms(a)] case None => []) + Acks(pool[1..])
  }

  function UnaidedOf(control: seq<Trial>, t: nat): Unaided {
    var pool := Pool(control, t);
    var acks := Acks(pool);
    var s := Stats.SummaryOf(acks);
    Unaided(|pool|, |acks|, if s.Some? then Some(s.value.p50) else None, if s.Some? then Some(s.value.p90) else None)
  }

  function CountNever(control: seq<Trial>): nat {
    if control == [] then 0 else (if control[0].ack.None? then 1 else 0) + CountNever(control[1..])
  }

  lemma {:induction false} PoolAcks(control: seq<Trial>, t: nat)
    ensures forall a :: a in Acks(Pool(control, t)) ==> a > Ms(t)
    ensures |Pool(control, t)| == |Acks(Pool(control, t))| + CountNever(control)
  {
    if control != [] {
      var x, rest := control[0], Pool(control[1..], t);
      PoolAcks(control[1..], t);
      if UnackedAt(x, t) {
        assert ([x] + rest)[1..] == rest;
      } else {
        assert [] + rest == rest;
      }
    }
  }

  /** The acknowledgements of the pool, trial by trial: those later than T, in milliseconds. */
  function TailOf(control: seq<Trial>, t: nat): (ts: seq<Option<real>>)
    ensures |ts| == |control|
  {
    seq(|control|, i requires 0 <= i < |control| =>
      match control[i].ack case None => None case Some(a) => if a > t then Some(a as real / 1000000.0) else None)
  }

  lemma {:induction false} PoolAcksAre(control: seq<Trial>, t: nat)
    ensures Acks(Pool(control, t)) == Somes(TailOf(control, t))
  {
    if control != [] {
      var rest := control[1..];
      PoolAcksAre(rest, t);
      assert TailOf(control, t)[1..] == TailOf(rest, t);
      SomesFirst(TailOf(control, t));
      AcksOfFirst(control[0], Pool(rest, t), t);
    }
  }

  lemma AcksOfFirst(x: Trial, rest: seq<Trial>, t: nat)
    ensures var acks := Acks((if UnackedAt(x, t) then [x] else []) + rest);
            acks == if x.ack.Some? && x.ack.value > t then [x.ack.value as real / 1000000.0] + Acks(rest)
                    else Acks(rest)
  {
    if UnackedAt(x, t) {
      assert ([x] + rest)[1..] == rest;
      assert [] + Acks(rest) == Acks(rest);
    } else {
      assert [] + rest == rest;
    }
  }

  /**
   What is printed of the control: how many of its trials acknowledged later than T or never, how
   many of those did acknowledge, and two percentiles of when.
   */
  lemma UnaidedIs(control: seq<Trial>, t: nat)
    ensures var u, acks := UnaidedOf(control, t), Somes(TailOf(control, t));
            && u.acked == |acks| && u.pool == |acks| + CountNever(control)
            && (acks != [] ==> && u.p50 == Some(Stats.NearestRank(Stats.Ascending(acks), 50.0))
                               && u.p90 == Some(Stats.NearestRank(Stats.Ascending(acks), 90.0)))
  {
    PoolAcks(control, t);
    PoolAcksAre(control, t);
  }

  /**
   Every trial of the control that never acknowledged is in its population; the printed percentiles
   are acknowledgement times of that population, so both are later than T.
   */
  lemma UnaidedIsTheTail(control: seq<Trial>, t: nat)
    ensures var u := UnaidedOf(control, t);
            && u.pool == u.acked + CountNever(control)
            && (u.p50.Some? <==> u.acked > 0) && (u.p90.Some? <==> u.acked > 0)
            && (u.acked > 0 ==> Ms(t) < u.p50.value <= u.p90.value)
  {
    PoolAcks(control, t);
    var acks := Acks(Pool(control, t));
    if acks != [] {
      Stats.NearestRankMeans(acks, 50.0);
      Stats.SummaryIsOrderedAndOrderFree(acks, acks);
    }
  }
}

/** Batches of puts in `src/latency.rs`: how payloads are cut up, and how a batch's answers are collected. */
module Batch {
  import opened Base
  import Arith
  import Stats

  /* ---------- cutting a payload ---------- */

  function Sum(ns: seq<nat>): nat { if ns == [] then 0 else Sum(ns[..|ns| - 1]) + ns[|ns| - 1] }

  /** How many pieces a payload takes: rounded up, and one for an empty payload. */
  function Pieces(size: nat, per: nat): nat
    requires per > 0
  {
    if size == 0 then 1 else (size + per - 1) / per
  }

  /**
   The loop of `make_set` and `make_bag`: as few pieces as `per` allows, all full but the last.
   More than the `slots` the contract keeps is refused.
   */
  method Cut(size: nat, per: nat, slots: nat) returns (r: Option<seq<nat>>)
    requires per > 0
    ensures r.Some? <==> Pieces(size, per) <= slots
    ensures r.Some? ==>
              var ns := r.value;
              && Sum(ns) == size && |ns| == Pieces(size, per)
              && (forall i :: 0 <= i < |ns| - 1 ==> ns[i] == per)
              && ns[|ns| - 1] <= per && (size > 0 ==> ns[|ns| - 1] > 0)
  {
    var ns: seq<nat>, left: nat := [], size;
    while left > 0 || ns == []
      invariant left > 0 ==> size == per * |ns| + left
      invariant left == 0 && ns != [] ==> |ns| == Pieces(size, per)
      invariant Sum(ns) + left == size
      invariant forall i :: 0 <= i < |ns| - 1 ==> ns[i] == per
      invariant ns != [] && left > 0 ==> ns[|ns| - 1] == per
      invariant ns != [] && left == 0 ==> ns[|ns| - 1] <= per && (size > 0 ==> ns[|ns| - 1] > 0)
      decreases left, if ns == [] then 1 else 0
    {
      var take := if left < per then left else per;
      if left == take && size > 0 {
        LastPiece(size, per, |ns|, left);
      }
      assert (ns + [take])[..|ns|] == ns;
      assert per * (|ns| + 1) == per * |ns| + per;
      ns := ns + [take];
      left := left - take;
    }
    r := if |ns| > slots then None else Some(ns);
  }

  lemma LastPiece(size: nat, per: nat, before: nat, left: nat)
    requires per > 0 && size == per * before + left && 0 < left <= per
    ensures Pieces(size, per) == before + 1
  {
    assert size + per - 1 == per * (before + 1) + (left - 1) by { assert per * (before + 1) == per * before + per; }
    Arith.DivUnique(size + per - 1, per, before + 1, left - 1);
  }

  /** The size a kind is given as its ceiling: every slot full. Anything larger is skipped with a note. */
  predicate Skipped(size: nat, per: nat, slots: nat) { size > slots * per }

  /** The note is exact: what it lets through is never refused by the cut, and what it skips would be. */
  lemma SkippedIffRefused(size: nat, per: nat, slots: nat)
    requires per > 0 && slots > 0
    ensures Skipped(size, per, slots) <==> Pieces(size, per) > slots
  {
    if size > 0 {
      var q := (size - 1) / per;
      assert size - 1 == per * q + (size - 1) % per;
      LastPiece(size, per, q, (size - 1) % per + 1);
      if q >= slots {
        Arith.MulMonotone(slots, q, per);
      } else {
        Arith.MulMonotone(q + 1, slots, per);
        assert (q + 1) * per == q * per + per;
      }
    }
  }

  /* ---------- collecting a batch's answers ---------- */

  type Id = string

  /** What arrives while a batch is collected: an acknowledgement, anything else, a lost connection, silence. */
  datatype Event = Ack(id: Id, at: nat) | Other | Broken | Quiet

  datatype Sample = Took(ns: int) | Failed

  /** A batch as it was issued: each put's id, and when its send had returned. */
  datatype Put = Put(id: Id, sentAt: nat)

  ghost predicate DistinctIds(puts: seq<Put>) {
    forall i, j :: 0 <= i < j < |puts| ==> puts[i].id != puts[j].id
  }

  predicate Issued(puts: seq<Put>, id: Id) { exists i :: 0 <= i < |puts| && puts[i].id == id }

  predicate IsAck(e: Event, id: Id) { e.Ack? && e.id == id }

  function LastAck(es: seq<Event>, id: Id): Option<nat> {
    if es == [] then None
    else if IsAck(es[|es| - 1], id) then Some(es[|es| - 1].at)
    else LastAck(es[..|es| - 1], id)
  }

  function FirstAck(es: seq<Event>, id: Id): Option<nat> {
    if es == [] then None
    else if FirstAck(es[..|es| - 1], id).Some? then FirstAck(es[..|es| - 1], id)
    else if IsAck(es[|es| - 1], id) then Some(es[|es| - 1].at) else None
  }

  /** The map the loop keeps: the last acknowledgement of each issued put. */
  function Latest(puts: seq<Put>, es: seq<Event>): map<Id, nat> {
    if es == [] then map[]
    else
      var before, e := Latest(puts, es[..|es| - 1]), es[|es| - 1];
      if e.Ack? && Issued(puts, e.id) then before[e.id := e.at] else before
  }

  lemma {:induction false} LatestIs(puts: seq<Put>, es: seq<Event>, id: Id)
    ensures id in Latest(puts, es) <==> Issued(puts, id) && LastAck(es, id).Some?
    ensures id in Latest(puts, es) ==> LastAck(es, id) == Some(Latest(puts, es)[id])
  {
    if es != [] {
      LatestIs(puts, es[..|es| - 1], id);
    }
  }

  /** The times of the acknowledgements that are the first for their put, in arrival order. */
  function Curve(puts: seq<Put>, es: seq<Event>): seq<nat> {
    if es == [] then []
    else
      var before, e := es[..|es| - 1], es[|es| - 1];
      if e.Ack? && Issued(puts, e.id) && LastAck(before, e.id).None? then Curve(puts, before) + [e.at]
      else Curve(puts, before)
  }

  function SampleOf(p: Put, es: seq<Event>): Sample {
    match LastAck(es, p.id) case None => Failed case Some(at) => Took(at - p.sentAt)
  }

  /** A put's sample is the time from its send to its last acknowledgement; without one it failed. */
  lemma {:induction false} SampleIsOfTheLast(p: Put, es: seq<Event>, j: nat)
    requires j < |es| && es[j].Ack? && es[j].id == p.id
    requires forall k :: j < k < |es| ==> !(es[k].Ack? && es[k].id == p.id)
    ensures SampleOf(p, es) == Took(es[j].at - p.sentAt)
  {
    if j < |es| - 1 {
      SampleIsOfTheLast(p, es[..|es| - 1], j);
    }
  }

  lemma {:induction false} NoSampleIff(p: Put, es: seq<Event>)
    ensures SampleOf(p, es) == Failed <==> forall j :: 0 <= j < |es| ==> !(es[j].Ack? && es[j].id == p.id)
  {
    NoAckYet(es, p.id);
  }

  /** The points of the curve: each acknowledgement of an issued put that no earlier one is for. */
  function PointAt(puts: seq<Put>, es: seq<Event>, i: nat): Option<nat>
    requires i < |es|
  {
    if es[i].Ack? && Issued(puts, es[i].id) && forall j :: 0 <= j < i ==> !(es[j].Ack? && es[j].id == es[i].id)
    then Some(es[i].at) else None
  }

  function PointsOf(puts: seq<Put>, es: seq<Event>): (ps: seq<Option<nat>>)
    ensures |ps| == |es| && forall i :: 0 <= i < |es| ==> ps[i] == PointAt(puts, es, i)
  {
    seq(|es|, i requires 0 <= i < |es| => PointAt(puts, es, i))
  }

  lemma {:induction false} NoAckYet(es: seq<Event>, id: Id)
    ensures LastAck(es, id).None? <==> forall j :: 0 <= j < |es| ==> !(es[j].Ack? && es[j].id == id)
  {
    if es != [] {
      NoAckYet(es[..|es| - 1], id);
    }
  }

  lemma {:induction false} CurveIs(puts: seq<Put>, es: seq<Event>)
    ensures Curve(puts, es) == Somes(PointsOf(puts, es))
  {
    if es != [] {
      var n := |es| - 1;
      CurveIs(puts, es[..n]);
      assert PointsOf(puts, es)[..n] == PointsOf(puts, es[..n]);
      if es[n].Ack? {
        NoAckYet(es[..n], es[n].id);
        assert forall j :: 0 <= j < n ==> es[..n][j] == es[j];
      }
    }
  }

  /** No event is taken once every put has its answer. */
  ghost predicate StopsAtOnce(puts: seq<Put>, es: seq<Event>, taken: nat) {
    taken <= |es| && forall i: nat :: i + 1 == taken ==> |Curve(puts, es[..i])| < |puts|
  }

  lemma OneMoreEvent(puts: seq<Put>, es: seq<Event>, n: nat)
    requires n < |es|
    ensures var e, last := es[n], Latest(puts, es[..n]);
            if e.Ack? && Issued(puts, e.id) then
              && Latest(puts, es[..n + 1]) == last[e.id := e.at]
              && Curve(puts, es[..n + 1]) == Curve(puts, es[..n]) + if e.id in last then [] else [e.at]
            else Latest(puts, es[..n + 1]) == last && Curve(puts, es[..n + 1]) == Curve(puts, es[..n])
  {
    assert es[..n + 1][..n] == es[..n];
    if es[n].Ack? {
      LatestIs(puts, es[..n], es[n].id);
    }
  }

  /**
   The collecting loop of `measure_parallel`. It stops once every put is answered, when nothing
   more comes in time, or with an error if the connection ends; `taken` events were consumed.
   */
  method Collect(puts: seq<Put>, events: seq<Event>)
    returns (perPut: seq<Sample>, done: seq<nat>, taken: nat, ok: bool)
    requires DistinctIds(puts)
    ensures taken <= |events|
    ensures |perPut| == |puts| && done == Curve(puts, events[..taken])
    ensures forall i :: 0 <= i < |puts| ==> perPut[i] == SampleOf(puts[i], events[..taken])
    ensures ok ==> taken == |events| || events[taken].Quiet? || |done| >= |puts|
    ensures !ok ==> taken < |events| && events[taken].Broken? && |done| < |puts|
    ensures forall i :: 0 <= i < taken ==> events[i].Ack? || events[i].Other?
    ensures StopsAtOnce(puts, events, taken)
  {
    var last: map<Id, nat> := map[];
    done, taken, ok := [], 0, true;
    while taken < |events| && |last| < |puts| && !events[taken].Quiet?
      invariant taken <= |events| && |last| == |done| && ok
      invariant done == Curve(puts, events[..taken])
      invariant last == Latest(puts, events[..taken])
      invariant forall i :: 0 <= i < taken ==> events[i].Ack? || events[i].Other?
      invariant StopsAtOnce(puts, events, taken)
    {
      var e := events[taken];
      OneMoreEvent(puts, events, taken);
      assert StopsAtOnce(puts, events, taken + 1);
      if e.Broken? {
        ok := false;
        break;
      }
      if e.Ack? && Issued(puts, e.id) {
        if e.id !in last {
          done := done + [e.at];
        }
        last := last[e.id := e.at];
      }
      taken := taken + 1;
    }
    perPut := InIssueOrder(puts, last, events[..taken]);
  }

  /** One sample per put, in the order of issue; a put that is not in the map failed. */
  method InIssueOrder(puts: seq<Put>, last: map<Id, nat>, ghost es: seq<Event>) returns (perPut: seq<Sample>)
    requires last == Latest(puts, es)
    ensures |perPut| == |puts| && forall i :: 0 <= i < |puts| ==> perPut[i] == SampleOf(puts[i], es)
  {
    perPut := seq(|puts|, i requires 0 <= i < |puts| =>
      if puts[i].id in last then Took(last[puts[i].id] - puts[i].sentAt) else Failed);
    forall i | 0 <= i < |puts| ensures perPut[i] == SampleOf(puts[i], es) {
      LatestIs(puts, es, puts[i].id);
    }
  }

  function CountTook(ss: seq<Sample>): nat {
    if ss == [] then 0 else CountTook(ss[..|ss| - 1]) + (if ss[|ss| - 1].Took? then 1 else 0)
  }

  function Samples(puts: seq<Put>, es: seq<Event>): (ss: seq<Sample>)
    ensures |ss| == |puts| && forall i :: 0 <= i < |puts| ==> ss[i] == SampleOf(puts[i], es)
  {
    seq(|puts|, i requires 0 <= i < |puts| => SampleOf(puts[i], es))
  }

  lemma {:induction false} OneMoreAck(puts: seq<Put>, es: seq<Event>, e: Event)
    requires DistinctIds(puts)
    ensures CountTook(Samples(puts, es + [e]))
            == CountTook(Samples(puts, es))
               + if e.Ack? && Issued(puts, e.id) && LastAck(es, e.id).None? then 1 else 0
  {
    assert (es + [e])[..|es|] == es;
    if puts != [] {
      var n := |puts| - 1;
      var p, rest := puts[n], puts[..n];
      OneMoreAck(rest, es, e);
      assert Samples(puts, es)[..n] == Samples(rest, es);
      assert Samples(puts, es + [e])[..n] == Samples(rest, es + [e]);
      if e.Ack? {
        if e.id == p.id {
          assert !Issued(rest, e.id);
        } else {
          assert Issued(puts, e.id) <==> Issued(rest, e.id);
        }
      }
    }
  }

  /** Duplicates and strangers never move the curve: it has one point for each put that has a sample. */
  lemma {:induction false} CurveCountsAnswers(puts: seq<Put>, es: seq<Event>)
    requires DistinctIds(puts)
    ensures |Curve(puts, es)| == CountTook(Samples(puts, es)) <= |puts|
  {
    CountBounded(Samples(puts, es));
    if es == [] {
      NoneTook(Samples(puts, es));
    } else {
      var before, e := es[..|es| - 1], es[|es| - 1];
      CurveCountsAnswers(puts, before);
      assert es == before + [e];
      OneMoreAck(puts, before, e);
    }
  }

  lemma {:induction false} NoneTook(ss: seq<Sample>)
    requires forall i :: 0 <= i < |ss| ==> ss[i].Failed?
    ensures CountTook(ss) == 0
  {
    if ss != [] {
      NoneTook(ss[..|ss| - 1]);
    }
  }

  lemma {:induction false} CountBounded(ss: seq<Sample>)
    ensures CountTook(ss) <= |ss|
  {
    if ss != [] {
      CountBounded(ss[..|ss| - 1]);
    }
  }

  ghost predicate Forward(es: seq<Event>) {
    forall i, j :: 0 <= i < j < |es| && es[i].Ack? && es[j].Ack? ==> es[i].at <= es[j].at
  }

  /** Every acknowledgement of a put lies between its first and its last. */
  lemma {:induction false} AcksBetween(es: seq<Event>, id: Id, i: nat)
    requires Forward(es) && i < |es| && IsAck(es[i], id)
    ensures FirstAck(es, id).Some? && LastAck(es, id).Some?
    ensures FirstAck(es, id).value <= es[i].at <= LastAck(es, id).value
  {
    var n := |es| - 1;
    if i < n {
      AcksBetween(es[..n], id, i);
    } else if FirstAck(es[..n], id).Some? {
      FirstIsAnAck(es[..n], id);
    }
  }

  lemma {:induction false} FirstIsAnAck(es: seq<Event>, id: Id)
    requires FirstAck(es, id).Some?
    ensures exists j :: 0 <= j < |es| && es[j] == Ack(id, FirstAck(es, id).value)
  {
    var n := |es| - 1;
    if FirstAck(es[..n], id).Some? {
      FirstIsAnAck(es[..n], id);
      var j :| 0 <= j < n && es[..n][j] == Ack(id, FirstAck(es[..n], id).value);
      assert es[j] == Ack(id, FirstAck(es, id).value);
    } else {
      assert es[n] == Ack(id, FirstAck(es, id).value);
    }
  }

  lemma {:induction false} LastIsAnAck(es: seq<Event>, id: Id)
    requires LastAck(es, id).Some?
    ensures exists j :: 0 <= j < |es| && es[j] == Ack(id, LastAck(es, id).value)
  {
    var n := |es| - 1;
    if !IsAck(es[n], id) {
      LastIsAnAck(es[..n], id);
      var j :| 0 <= j < n && es[..n][j] == Ack(id, LastAck(es[..n], id).value);
      assert es[j] == Ack(id, LastAck(es, id).value);
    } else {
      assert es[n] == Ack(id, LastAck(es, id).value);
    }
  }

  /**
   A repeated acknowledgement moves the put's own sample, though never its point on the curve: the
   sample is the first acknowledgement's time exactly when none came later than that.
   */
  lemma SampleIsOfTheFirstIff(p: Put, es: seq<Event>)
    requires Forward(es) && FirstAck(es, p.id).Some?
    ensures SampleOf(p, es).Took? && SampleOf(p, es).ns >= FirstAck(es, p.id).value - p.sentAt
    ensures SampleOf(p, es).ns == FirstAck(es, p.id).value - p.sentAt
            <==> forall i :: 0 <= i < |es| && IsAck(es[i], p.id) ==> es[i].at == FirstAck(es, p.id).value
  {
    FirstIsAnAck(es, p.id);
    var j :| 0 <= j < |es| && es[j] == Ack(p.id, FirstAck(es, p.id).value);
    AcksBetween(es, p.id, j);
    LastIsAnAck(es, p.id);
    forall i | 0 <= i < |es| && IsAck(es[i], p.id)
      ensures FirstAck(es, p.id).value <= es[i].at <= LastAck(es, p.id).value
    {
      AcksBetween(es, p.id, i);
    }
  }

  /* ---------- reading the curve ---------- */

  function AsMs(ns: seq<nat>): (r: seq<real>)
    ensures |r| == |ns|
  {
    seq(|ns|, i requires 0 <= i < |ns| => ns[i] as real / 1000000.0)
  }

  lemma {:induction false} AllTookIff(ss: seq<Sample>)
    ensures CountTook(ss) == |ss| <==> forall i :: 0 <= i < |ss| ==> ss[i].Took?
  {
    CountBounded(ss);
    if ss != [] {
      CountBounded(ss[..|ss| - 1]);
      AllTookIff(ss[..|ss| - 1]);
    }
  }

  /**
   The curve is over the puts that were answered, not over the batch: what it gives as the time for
   all of it covers the whole batch exactly when no put of it failed.
   */
  lemma {:induction false} WholeCurveIsTheBatchIff(puts: seq<Put>, es: seq<Event>)
    requires DistinctIds(puts) && Curve(puts, es) != []
    ensures var s := Stats.Ascending(AsMs(Curve(puts, es)));
            && Stats.At(s, 1.0).Some?
            && Stats.CountAtMost(s, Stats.At(s, 1.0).value) == CountTook(Samples(puts, es))
            && (Stats.CountAtMost(s, Stats.At(s, 1.0).value) == |puts|
                <==> forall i :: 0 <= i < |puts| ==> SampleOf(puts[i], es).Took?)
  {
    var v := AsMs(Curve(puts, es));
    var s := Stats.Ascending(v);
    CurveCountsAnswers(puts, es);
    AllTookIff(Samples(puts, es));
    var x := s[|s| - 1];
    Stats.MthAtMostIff(v, |v|, x);
    Stats.CountSorted(v, x);
  }

  /* ---------- both happen ---------- */

  /** Two puts, the first acknowledged twice before the second: its latency is that of the repeat. */
  method RepeatMovesTheSample() returns (perPut: seq<Sample>, done: seq<nat>)
    ensures perPut == [Took(2), Took(3)] && done == [1, 3]
  {
    var puts, es := [Put("a", 0), Put("b", 0)], [Ack("a", 1), Ack("a", 2), Ack("b", 3)];
    var taken, ok;
    RepeatCurve(puts, es);
    perPut, done, taken, ok := Collect(puts, es);
    assert taken == 3;
  }

  lemma RepeatCurve(puts: seq<Put>, es: seq<Event>)
    requires puts == [Put("a", 0), Put("b", 0)] && es == [Ack("a", 1), Ack("a", 2), Ack("b", 3)]
    ensures Curve(puts, es[..0]) == [] && Curve(puts, es[..1]) == [1] == Curve(puts, es[..2])
    ensures Curve(puts, es[..3]) == [1, 3]
    ensures SampleOf(puts[0], es[..3]) == Took(2) && SampleOf(puts[1], es[..3]) == Took(3)
  {
    assert Issued(puts, puts[0].id) && Issued(puts, puts[1].id);
    assert es[..1][..0] == [] && es[..2][..1] == es[..1] && es[..3][..2] == es[..2] && es[..3] == es;
    assert LastAck(es[..1], "a") == Some(1) && LastAck(es[..1], "b") == None == LastAck(es[..2], "b");
    assert LastAck(es[..3], "b") == Some(3) && LastAck(es[..2], "a") == Some(2);
  }

  /** Two puts, one of them never answered: all of the curve is half of the batch. */
  method HalfABatchIsAllOfTheCurve() returns (perPut: seq<Sample>, done: seq<nat>)
    ensures perPut == [Took(1), Failed] && done == [1]
    ensures Stats.At(Stats.Ascending(AsMs(done)), 1.0) == Some(AsMs(done)[0])
  {
    var puts, es := [Put("a", 0), Put("b", 0)], [Ack("a", 1), Quiet];
    var taken, ok;
    perPut, done, taken, ok := Collect(puts, es);
    assert Issued(puts, puts[0].id);
    assert es[..1][..0] == [];
    assert Curve(puts, es[..1]) == [1];
    assert taken == 1;
    assert LastAck(es[..1], "a") == Some(1) && LastAck(es[..1], "b") == None;
    var ms := AsMs(done);
    assert Stats.Ascending(ms) == ms by { assert ms[..0] == [] && Stats.Ascending([]) == []; }
  }
}
